/** The JSON text that is hashed and signed, a reader for it, and the proof that what is printed is
    read back: distinct values have distinct texts. */
module JsonText {
  import opened Texts
  import opened Json

  // ---------------------------------------------------------------------------------------
  // Printing
  // ---------------------------------------------------------------------------------------

  function HexDigit(n: nat): char
    requires n < 16
  {
    ['0', '1', '2', '3', '4', '5', '6', '7', '8', '9', 'a', 'b', 'c', 'd', 'e', 'f'][n]
  }

  function EscapeChar(c: char): string {
    if c == '\"' then "\\\""
    else if c == '\\' then "\\\\"
    else if c as int == 8 then "\\b"
    else if c as int == 9 then "\\t"
    else if c as int == 10 then "\\n"
    else if c as int == 12 then "\\f"
    else if c as int == 13 then "\\r"
    else if (c as int) < 32 then "\\u00" + [HexDigit(c as int / 16), HexDigit(c as int % 16)]
    else [c]
  }

  function Escape(s: string): string {
    if s == [] then [] else EscapeChar(s[0]) + Escape(s[1..])
  }

  function Quote(s: string): string { "\"" + (Escape(s) + "\"") }

  function Print(v: Json): string
    decreases v, 1
  {
    match v
    case Null => "null"
    case Bool(b) => if b then "true" else "false"
    case Num(l) => l
    case Str(s) => Quote(s)
    case Arr(xs) => "[" + (if xs == [] then "]" else Print(xs[0]) + MoreItems(xs[1..]))
    case Obj(ms) => "{" + (if ms == [] then "}" else PrintMember(ms[0]) + MoreMembers(ms[1..]))
  }

  function PrintMember(m: Member): string
    decreases m, 0
  {
    Quote(m.key) + (":" + Print(m.value))
  }

  function MoreItems(xs: seq<Json>): string
    decreases xs, 0
  {
    if xs == [] then "]" else "," + (Print(xs[0]) + MoreItems(xs[1..]))
  }

  function MoreMembers(ms: seq<Member>): string
    decreases ms, 0
  {
    if ms == [] then "}" else "," + (PrintMember(ms[0]) + MoreMembers(ms[1..]))
  }

  // ---------------------------------------------------------------------------------------
  // Values whose numbers are JSON numerals
  // ---------------------------------------------------------------------------------------

  predicate NumChar(c: char) {
    '0' <= c <= '9' || c == '-' || c == '+' || c == '.' || c == 'e' || c == 'E'
  }

  predicate Numeral(l: string) {
    l != [] && ('0' <= l[0] <= '9' || l[0] == '-') && forall i | 0 <= i < |l| :: NumChar(l[i])
  }

  predicate WellFormed(v: Json) {
    match v
    case Num(l) => Numeral(l)
    case Arr(xs) => forall x | x in xs :: WellFormed(x)
    case Obj(ms) => forall m | m in ms :: WellFormed(m.value)
    case _ => true
  }

  /** What may follow a value: nothing, a comma or a closing bracket. */
  predicate Follows(t: string) {
    t == [] || t[0] == ',' || t[0] == ']' || t[0] == '}'
  }

  // ---------------------------------------------------------------------------------------
  // Reading
  // ---------------------------------------------------------------------------------------

  // A reader of the compact texts that serde_json and JSON.stringify write: no white space, the
  // shortest escapes, lower-case hexadecimal.  It shares nothing with the printer.

  function HexValue(c: char): Option<nat> {
    if '0' <= c <= '9' then Some(c as int - '0' as int)
    else if 'a' <= c <= 'f' then Some(c as int - 'a' as int + 10)
    else None
  }

  /** The character that a string's text starts with, and how much text it takes. */
  function NextChar(s: string): (r: Option<(char, nat)>)
    requires s != []
    ensures r.Some? ==> 1 <= r.value.1 <= |s|
  {
    if s[0] != '\\' then (if s[0] as int >= 0x20 && s[0] != '\"' then Some((s[0], 1)) else None)
    else if |s| < 2 then None
    else
      match s[1]
      case '\"' => Some(('\"', 2))
      case '\\' => Some(('\\', 2))
      case 'b' => Some((8 as char, 2))
      case 't' => Some((9 as char, 2))
      case 'n' => Some((10 as char, 2))
      case 'f' => Some((12 as char, 2))
      case 'r' => Some((13 as char, 2))
      case 'u' =>
        if |s| < 6 || s[2..4] != "00" || (s[4] != '0' && s[4] != '1') || HexValue(s[5]).None? then None
        else
          var code := (if s[4] == '1' then 16 else 0) + HexValue(s[5]).value;
          if code in {8, 9, 10, 12, 13} then None else Some((code as char, 6))
      case _ => None
  }

  /** The rest of a string behind its opening quote. */
  function ReadString(s: string): (r: Option<(string, string)>)
    ensures r.Some? ==> |r.value.1| < |s|
    decreases |s|
  {
    if s == [] then None
    else if s[0] == '\"' then Some(([], s[1..]))
    else
      match NextChar(s)
      case None => None
      case Some((c, n)) =>
        match ReadString(s[n..])
        case None => None
        case Some((t, rest)) => Some(([c] + t, rest))
  }

  predicate NumberChar(c: char) { c in "0123456789+-.eE" }

  function NumberLength(s: string): (n: nat)
    ensures n <= |s|
  {
    if s == [] || !NumberChar(s[0]) then 0 else 1 + NumberLength(s[1..])
  }

  function ReadValue(s: string): (r: Option<(Json, string)>)
    ensures r.Some? ==> |r.value.1| < |s|
    decreases |s|, 1
  {
    if s == [] then None
    else if s[0] == 'n' then (if "null" <= s then Some((Null, s[4..])) else None)
    else if s[0] == 't' then (if "true" <= s then Some((Bool(true), s[4..])) else None)
    else if s[0] == 'f' then (if "false" <= s then Some((Bool(false), s[5..])) else None)
    else if s[0] == '\"' then
      match ReadString(s[1..]) case None => None case Some((t, rest)) => Some((Str(t), rest))
    else if s[0] == '[' then
      if |s| > 1 && s[1] == ']' then Some((Arr([]), s[2..]))
      else match ReadItems(s[1..]) case None => None case Some((xs, rest)) => Some((Arr(xs), rest))
    else if s[0] == '{' then
      if |s| > 1 && s[1] == '}' then Some((Obj([]), s[2..]))
      else match ReadMembers(s[1..]) case None => None case Some((ms, rest)) => Some((Obj(ms), rest))
    else if '0' <= s[0] <= '9' || s[0] == '-' then Some((Num(s[..NumberLength(s)]), s[NumberLength(s)..]))
    else None
  }

  /** A value, and more behind commas, up to the closing bracket. */
  function ReadItems(s: string): (r: Option<(seq<Json>, string)>)
    ensures r.Some? ==> |r.value.1| < |s|
    decreases |s|, 2
  {
    match ReadValue(s)
    case None => None
    case Some((x, t)) =>
      if t == [] then None
      else if t[0] == ']' then Some(([x], t[1..]))
      else if t[0] == ',' then
        match ReadItems(t[1..]) case None => None case Some((xs, rest)) => Some(([x] + xs, rest))
      else None
  }

  /** A key, a colon and a value, and more behind commas, up to the closing brace. */
  function ReadMembers(s: string): (r: Option<(seq<Member>, string)>)
    ensures r.Some? ==> |r.value.1| < |s|
    decreases |s|, 2
  {
    match ReadMember(s)
    case None => None
    case Some((m, t)) =>
      if t == [] then None
      else if t[0] == '}' then Some(([m], t[1..]))
      else if t[0] == ',' then
        match ReadMembers(t[1..]) case None => None case Some((ms, rest)) => Some(([m] + ms, rest))
      else None
  }

  function ReadMember(s: string): (r: Option<(Member, string)>)
    ensures r.Some? ==> |r.value.1| < |s|
    decreases |s|, 1
  {
    if s == [] || s[0] != '\"' then None
    else
      match ReadString(s[1..])
      case None => None
      case Some((key, t)) =>
        if t == [] || t[0] != ':' then None
        else match ReadValue(t[1..]) case None => None case Some((v, rest)) => Some((Member(key, v), rest))
  }

  // ---------------------------------------------------------------------------------------
  // What is printed is read back
  // ---------------------------------------------------------------------------------------

  lemma Regroup(x: string, y: string, s: string)
    ensures (x + y) + s == x + (y + s)
  {
  }

  lemma SamePrefix(x: string, y: string, s: string, t: string)
    requires |x| == |y| && x + s == y + t
    ensures x == y && s == t
  {
    assert x == (x + s)[..|x|] && y == (y + t)[..|y|];
    assert s == (x + s)[|x|..] && t == (y + t)[|y|..];
  }

  lemma SkipPrefix(x: string, s: string)
    ensures (x + s)[|x|..] == s && (x + s)[..|x|] == x
  {
  }

  lemma NextEscaped(c: char, rest: string)
    ensures NextChar(EscapeChar(c) + rest) == Some((c, |EscapeChar(c)|))
  {
    var x := EscapeChar(c);
    var s := x + rest;
    assert forall i | 0 <= i < |x| :: s[i] == x[i];
    if |x| == 6 {
      assert s[2..4] == "00";
      HexDigits(c as int % 16);
    }
  }

  lemma HexDigits(n: nat)
    requires n < 16
    ensures HexValue(HexDigit(n)) == Some(n)
  {
  }

  lemma {:induction false} ReadEscaped(x: string, rest: string)
    ensures ReadString(Escape(x) + ("\"" + rest)) == Some((x, rest))
  {
    var close := "\"" + rest;
    if x == [] {
      assert [] + close == close && close[1..] == rest;
    } else {
      var e, more := EscapeChar(x[0]), Escape(x[1..]);
      var s := (e + more) + close;
      Regroup(e, more, close);
      NextEscaped(x[0], more + close);
      SkipPrefix(e, more + close);
      ReadEscaped(x[1..], rest);
      assert s[0] == e[0] && e[0] != '\"';
      assert x == [x[0]] + x[1..];
    }
  }

  /** A quoted string, behind its opening quote. */
  lemma ReadQuoted(x: string, rest: string)
    ensures Quote(x) + rest != [] && (Quote(x) + rest)[0] == '\"' && ReadString((Quote(x) + rest)[1..]) == Some((x, rest))
  {
    Regroup("\"", Escape(x) + "\"", rest);
    Regroup(Escape(x), "\"", rest);
    SkipPrefix("\"", Escape(x) + ("\"" + rest));
    ReadEscaped(x, rest);
  }

  lemma {:induction false} NumeralLength(l: string, rest: string)
    requires (forall i | 0 <= i < |l| :: NumChar(l[i])) && Follows(rest)
    ensures NumberLength(l + rest) == |l|
  {
    if l == [] {
      assert l + rest == rest;
    } else {
      assert (l + rest)[1..] == l[1..] + rest;
      NumeralLength(l[1..], rest);
    }
  }

  // One step of each part of the reader.

  lemma ItemsStep(s: string, x: Json, t: string, xs: seq<Json>, rest: string)
    requires ReadValue(s) == Some((x, t)) && t != []
    requires (t[0] == ']' && xs == [] && rest == t[1..]) || (t[0] == ',' && ReadItems(t[1..]) == Some((xs, rest)))
    ensures ReadItems(s) == Some(([x] + xs, rest))
  {
    assert [x] + [] == [x];
  }

  lemma MembersStep(s: string, m: Member, t: string, ms: seq<Member>, rest: string)
    requires ReadMember(s) == Some((m, t)) && t != []
    requires (t[0] == '}' && ms == [] && rest == t[1..]) || (t[0] == ',' && ReadMembers(t[1..]) == Some((ms, rest)))
    ensures ReadMembers(s) == Some(([m] + ms, rest))
  {
    assert [m] + [] == [m];
  }

  lemma MemberStep(s: string, key: string, t: string, v: Json, rest: string)
    requires s != [] && s[0] == '\"' && ReadString(s[1..]) == Some((key, t))
    requires t != [] && t[0] == ':' && ReadValue(t[1..]) == Some((v, rest))
    ensures ReadMember(s) == Some((Member(key, v), rest))
  {
  }

  lemma ArrayStep(body: string, xs: seq<Json>, rest: string)
    requires body != [] && body[0] != ']' && ReadItems(body) == Some((xs, rest))
    ensures ReadValue("[" + body) == Some((Arr(xs), rest))
  {
    SkipPrefix("[", body);
    assert ("[" + body)[1] == body[0];
  }

  lemma ObjectStep(body: string, ms: seq<Member>, rest: string)
    requires body != [] && body[0] != '}' && ReadMembers(body) == Some((ms, rest))
    ensures ReadValue("{" + body) == Some((Obj(ms), rest))
  {
    SkipPrefix("{", body);
    assert ("{" + body)[1] == body[0];
  }

  lemma FirstChar(v: Json)
    requires WellFormed(v)
    ensures Print(v) != [] && Print(v)[0] != ']'
  {
  }

  /** Reading what was printed gives the value back and leaves what follows. */
  lemma {:induction false} ReadPrint(v: Json, rest: string)
    requires WellFormed(v) && Follows(rest)
    ensures ReadValue(Print(v) + rest) == Some((v, rest))
    decreases v, 1
  {
    match v
    case Null => SkipPrefix("null", rest);
    case Bool(b) => SkipPrefix(if b then "true" else "false", rest);
    case Num(l) =>
      NumeralLength(l, rest);
      SkipPrefix(l, rest);
    case Str(x) => ReadQuoted(x, rest);
    case Arr(xs) => ReadPrintedArray(xs, rest);
    case Obj(ms) => ReadPrintedObject(ms, rest);
  }

  lemma {:induction false} ReadPrintedArray(xs: seq<Json>, rest: string)
    requires Follows(rest) && forall x | x in xs :: WellFormed(x)
    ensures ReadValue(Print(Arr(xs)) + rest) == Some((Arr(xs), rest))
    decreases xs, 1
  {
    if xs == [] {
      assert ("[" + "]") + rest == "[]" + rest;
      SkipPrefix("[]", rest);
    } else {
      var body := Print(xs[0]) + MoreItems(xs[1..]);
      assert xs[0] in xs;
      FirstChar(xs[0]);
      Regroup("[", body, rest);
      ReadPrintedItems(xs, rest);
      ArrayStep(body + rest, xs, rest);
    }
  }

  lemma {:induction false} ReadPrintedItems(xs: seq<Json>, rest: string)
    requires xs != [] && Follows(rest) && forall x | x in xs :: WellFormed(x)
    ensures ReadItems(Print(xs[0]) + MoreItems(xs[1..]) + rest) == Some((xs, rest))
    decreases xs, 0
  {
    var ys := xs[1..];
    var s, more := Print(xs[0]) + MoreItems(ys) + rest, MoreItems(ys) + rest;
    assert xs[0] in xs && xs == [xs[0]] + ys;
    Regroup(Print(xs[0]), MoreItems(ys), rest);
    ReadPrint(xs[0], more);
    if ys == [] {
      SkipPrefix("]", rest);
    } else {
      Regroup(",", Print(ys[0]) + MoreItems(ys[1..]), rest);
      SkipPrefix(",", Print(ys[0]) + MoreItems(ys[1..]) + rest);
      ReadPrintedItems(ys, rest);
    }
    ItemsStep(s, xs[0], more, ys, rest);
  }

  lemma {:induction false} ReadPrintedMember(m: Member, rest: string)
    requires WellFormed(m.value) && Follows(rest)
    ensures ReadMember(PrintMember(m) + rest) == Some((m, rest))
    decreases m, 2
  {
    var tail := (":" + Print(m.value)) + rest;
    Regroup(Quote(m.key), ":" + Print(m.value), rest);
    ReadQuoted(m.key, tail);
    Regroup(":", Print(m.value), rest);
    SkipPrefix(":", Print(m.value) + rest);
    ReadPrint(m.value, rest);
    MemberStep(PrintMember(m) + rest, m.key, tail, m.value, rest);
  }

  lemma {:induction false} ReadPrintedObject(ms: seq<Member>, rest: string)
    requires Follows(rest) && forall m | m in ms :: WellFormed(m.value)
    ensures ReadValue(Print(Obj(ms)) + rest) == Some((Obj(ms), rest))
    decreases ms, 1
  {
    if ms == [] {
      assert ("{" + "}") + rest == "{}" + rest;
      SkipPrefix("{}", rest);
    } else {
      var body := PrintMember(ms[0]) + MoreMembers(ms[1..]);
      assert PrintMember(ms[0]) != [] && PrintMember(ms[0])[0] == '\"';
      Regroup("{", body, rest);
      ReadPrintedMembers(ms, rest);
      ObjectStep(body + rest, ms, rest);
    }
  }

  lemma {:induction false} ReadPrintedMembers(ms: seq<Member>, rest: string)
    requires ms != [] && Follows(rest) && forall m | m in ms :: WellFormed(m.value)
    ensures ReadMembers(PrintMember(ms[0]) + MoreMembers(ms[1..]) + rest) == Some((ms, rest))
    decreases ms, 0
  {
    var ns := ms[1..];
    var s, more := PrintMember(ms[0]) + MoreMembers(ns) + rest, MoreMembers(ns) + rest;
    assert ms[0] in ms && ms == [ms[0]] + ns;
    Regroup(PrintMember(ms[0]), MoreMembers(ns), rest);
    ReadPrintedMember(ms[0], more);
    if ns == [] {
      SkipPrefix("}", rest);
    } else {
      Regroup(",", PrintMember(ns[0]) + MoreMembers(ns[1..]), rest);
      SkipPrefix(",", PrintMember(ns[0]) + MoreMembers(ns[1..]) + rest);
      ReadPrintedMembers(ns, rest);
    }
    MembersStep(s, ms[0], more, ns, rest);
  }

  // Only what is printed is read.

  lemma NextIsEscaped(s: string)
    requires s != [] && NextChar(s).Some?
    ensures s[..NextChar(s).value.1] == EscapeChar(NextChar(s).value.0)
  {
    var (c, n) := NextChar(s).value;
    if n == 6 {
      assert s[..6] == s[..2] + s[2..4] + [s[4]] + [s[5]];
      assert s[..2] == "\\u";
      HexOnly(s[5]);
      assert HexDigit(c as int / 16) == s[4] && HexDigit(c as int % 16) == s[5];
    } else if n == 2 {
      assert s[..2] == [s[0], s[1]];
    }
  }

  lemma HexOnly(c: char)
    requires HexValue(c).Some?
    ensures HexValue(c).value < 16 && HexDigit(HexValue(c).value) == c
  {
  }

  lemma {:induction false} StringIsEscaped(s: string)
    requires ReadString(s).Some?
    ensures var (x, rest) := ReadString(s).value; s == Escape(x) + ("\"" + rest)
    decreases |s|
  {
    if s[0] == '\"' {
      assert s == "\"" + s[1..];
    } else {
      var (c, n) := NextChar(s).value;
      var (t, rest) := ReadString(s[n..]).value;
      NextIsEscaped(s);
      StringIsEscaped(s[n..]);
      assert s == s[..n] + s[n..];
      assert ([c] + t)[1..] == t;
      Regroup(EscapeChar(c), Escape(t), "\"" + rest);
    }
  }

  lemma QuotedIsQuote(s: string)
    requires s != [] && s[0] == '\"' && ReadString(s[1..]).Some?
    ensures var (x, rest) := ReadString(s[1..]).value; s == Quote(x) + rest
  {
    var (x, rest) := ReadString(s[1..]).value;
    StringIsEscaped(s[1..]);
    assert s == "\"" + s[1..];
    Regroup("\"", Escape(x) + "\"", rest);
    Regroup(Escape(x), "\"", rest);
  }

  /** The reader accepts nothing but what the printer writes. */
  lemma {:induction false} ReadIsPrinted(s: string)
    requires ReadValue(s).Some?
    ensures var (v, rest) := ReadValue(s).value; s == Print(v) + rest
    decreases |s|, 1
  {
    var (v, rest) := ReadValue(s).value;
    match v
    case Null => assert s == s[..4] + s[4..];
    case Bool(b) => var n := if b then 4 else 5; assert s == s[..n] + s[n..];
    case Num(l) => assert s == s[..NumberLength(s)] + s[NumberLength(s)..];
    case Str(_) => QuotedIsQuote(s);
    case Arr(xs) => ArrayIsPrinted(s);
    case Obj(ms) => ObjectIsPrinted(s);
  }

  lemma {:induction false} ArrayIsPrinted(s: string)
    requires s != [] && s[0] == '[' && ReadValue(s).Some?
    ensures var (v, rest) := ReadValue(s).value; s == Print(v) + rest
    decreases |s|, 0
  {
    if |s| > 1 && s[1] == ']' {
      assert s == s[..2] + s[2..] && s[..2] == "[" + "]";
    } else {
      var (xs, rest) := ReadItems(s[1..]).value;
      ItemsArePrinted(s[1..]);
      assert s == "[" + s[1..];
      Regroup("[", Print(xs[0]) + MoreItems(xs[1..]), rest);
    }
  }

  lemma {:induction false} ItemsArePrinted(s: string)
    requires ReadItems(s).Some?
    ensures var (xs, rest) := ReadItems(s).value; xs != [] && s == Print(xs[0]) + MoreItems(xs[1..]) + rest
    decreases |s|, 2
  {
    var (x, t) := ReadValue(s).value;
    ReadIsPrinted(s);
    if t[0] == ']' {
      assert t == "]" + t[1..];
      Regroup(Print(x), "]", t[1..]);
    } else {
      var (ys, rest) := ReadItems(t[1..]).value;
      ItemsArePrinted(t[1..]);
      var more := Print(ys[0]) + MoreItems(ys[1..]);
      assert t == "," + t[1..] && ([x] + ys)[1..] == ys;
      Regroup(",", more, rest);
      Regroup(Print(x), "," + more, rest);
    }
  }

  lemma {:induction false} MemberIsPrinted(s: string)
    requires ReadMember(s).Some?
    ensures var (m, rest) := ReadMember(s).value; s == PrintMember(m) + rest
    decreases |s|, 1
  {
    var (key, t) := ReadString(s[1..]).value;
    var (v, rest) := ReadValue(t[1..]).value;
    QuotedIsQuote(s);
    ReadIsPrinted(t[1..]);
    assert t == ":" + t[1..];
    Regroup(":", Print(v), rest);
    Regroup(Quote(key), ":" + Print(v), rest);
  }

  lemma {:induction false} ObjectIsPrinted(s: string)
    requires s != [] && s[0] == '{' && ReadValue(s).Some?
    ensures var (v, rest) := ReadValue(s).value; s == Print(v) + rest
    decreases |s|, 0
  {
    if |s| > 1 && s[1] == '}' {
      assert s == s[..2] + s[2..] && s[..2] == "{" + "}";
    } else {
      var (ms, rest) := ReadMembers(s[1..]).value;
      MembersArePrinted(s[1..]);
      assert s == "{" + s[1..];
      Regroup("{", PrintMember(ms[0]) + MoreMembers(ms[1..]), rest);
    }
  }

  lemma {:induction false} MembersArePrinted(s: string)
    requires ReadMembers(s).Some?
    ensures var (ms, rest) := ReadMembers(s).value; ms != [] && s == PrintMember(ms[0]) + MoreMembers(ms[1..]) + rest
    decreases |s|, 2
  {
    var (m, t) := ReadMember(s).value;
    MemberIsPrinted(s);
    if t[0] == '}' {
      assert t == "}" + t[1..];
      Regroup(PrintMember(m), "}", t[1..]);
    } else {
      var (ns, rest) := ReadMembers(t[1..]).value;
      MembersArePrinted(t[1..]);
      var more := PrintMember(ns[0]) + MoreMembers(ns[1..]);
      assert t == "," + t[1..] && ([m] + ns)[1..] == ns;
      Regroup(",", more, rest);
      Regroup(PrintMember(m), "," + more, rest);
    }
  }

  /** Printed JSON is uniquely readable. */
  lemma PrintUnique(a: Json, b: Json, s: string, t: string)
    requires WellFormed(a) && WellFormed(b) && Follows(s) && Follows(t)
    requires Print(a) + s == Print(b) + t
    ensures a == b && s == t
  {
    ReadPrint(a, s);
    ReadPrint(b, t);
  }

  // ---------------------------------------------------------------------------------------
  // The canonical text
  // ---------------------------------------------------------------------------------------

  function CanonText(o: KeyOrder, v: Json): string { Print(Canon(o, v)) }

  /** The canonical text is JSON for the canonical value and nothing else. */
  lemma CanonTextReads(o: KeyOrder, v: Json)
    requires WellFormed(v)
    ensures ReadValue(CanonText(o, v)) == Some((Canon(o, v), []))
  {
    CanonWellFormed(o, v);
    ReadPrint(Canon(o, v), []);
    assert CanonText(o, v) + [] == CanonText(o, v);
  }

  /** `canonical_json_bytes` and `JSON.stringify(canonicalize(..))`: two values give the same
      text exactly when what the canonicaliser keeps of them is equal up to recursive key
      reordering. */
  lemma CanonTextExact(o: KeyOrder, a: Json, b: Json)
    requires WellFormed(a) && WellFormed(b)
    ensures CanonText(o, a) == CanonText(o, b) <==> Meaning(Surviving(o, a)) == Meaning(Surviving(o, b))
  {
    CanonExact(o, a, b);
    if CanonText(o, a) == CanonText(o, b) {
      CanonWellFormed(o, a);
      CanonWellFormed(o, b);
      assert Print(Canon(o, a)) + [] == Print(Canon(o, b)) + [];
      PrintUnique(Canon(o, a), Canon(o, b), [], []);
    }
  }

  /** The Rust side hashes the same text exactly for values that are equal up to recursive key
      reordering; so does the JavaScript side for values without the key "__proto__". */
  lemma CanonTextExactWhenKept(o: KeyOrder, a: Json, b: Json)
    requires WellFormed(a) && WellFormed(b) && (o == ByteOrder || (AllKept(o, a) && AllKept(o, b)))
    ensures CanonText(o, a) == CanonText(o, b) <==> Meaning(a) == Meaning(b)
  {
    CanonTextExact(o, a, b);
    CanonExact(o, a, b);
    CanonExactWhenKept(o, a, b);
  }

  lemma {:induction false} CanonWellFormed(o: KeyOrder, v: Json)
    requires WellFormed(v)
    ensures WellFormed(Canon(o, v))
    decreases v, 1
  {
    match v
    case Arr(xs) => ItemsWellFormed(o, xs);
    case Obj(ms) => MembersWellFormed(o, ms);
    case _ =>
  }

  lemma {:induction false} ItemsWellFormed(o: KeyOrder, xs: seq<Json>)
    requires forall x | x in xs :: WellFormed(x)
    ensures forall x | x in CanonItems(o, xs) :: WellFormed(x)
    decreases xs, 0
  {
    if xs != [] {
      ItemsWellFormed(o, xs[..|xs| - 1]);
      CanonWellFormed(o, xs[|xs| - 1]);
    }
  }

  lemma {:induction false} MembersWellFormed(o: KeyOrder, ms: seq<Member>)
    requires forall m | m in ms :: WellFormed(m.value)
    ensures forall m | m in CanonMembers(o, ms) :: WellFormed(m.value)
    decreases ms, 0
  {
    if ms != [] {
      var last := ms[|ms| - 1];
      MembersWellFormed(o, ms[..|ms| - 1]);
      CanonWellFormed(o, last.value);
      InsertContents(o, CanonMembers(o, ms[..|ms| - 1]), Member(last.key, Canon(o, last.value)));
    }
  }
}
