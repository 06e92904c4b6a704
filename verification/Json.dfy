// JSON values, their compact text, and a reader for that text after sections 2 to 7 of RFC 8259.
module Json {
  import opened Wrappers

  const MAX_SAFE_INTEGER := 9007199254740991

  /** The integers a JavaScript number holds exactly. */
  type SafeInt = n: int | -MAX_SAFE_INTEGER <= n <= MAX_SAFE_INTEGER

  datatype Entry<+T> = Entry(key: string, value: T)

  /** The members of an object are kept in the order they are written. */
  datatype Json =
    | Null
    | Bool(b: bool)
    | Num(n: SafeInt)
    | Str(s: string)
    | Arr(items: seq<Json>)
    | Obj(members: seq<Entry<Json>>)

  predicate DistinctKeys<T>(es: seq<Entry<T>>) {
    forall i, j | 0 <= i < j < |es| :: es[i].key != es[j].key
  }

  /** No object anywhere in v has a key twice. */
  predicate WellFormed(v: Json) {
    match v
    case Arr(items) => forall x | x in items :: WellFormed(x)
    case Obj(ms) => DistinctKeys(ms) && forall m | m in ms :: WellFormed(m.value)
    case _ => true
  }

  // ---------- Numbers ----------

  predicate IsDigit(c: char) { '0' <= c <= '9' }

  predicate AllDigits(t: string) { forall c | c in t :: IsDigit(c) }

  function DigitChar(d: nat): (c: char)
    requires d < 10
    ensures IsDigit(c) && DigitValue(c) == d
  {
    (d + '0' as int) as char
  }

  function DigitValue(c: char): (d: nat)
    requires IsDigit(c)
    ensures d < 10
  {
    c as int - '0' as int
  }

  function Decimal(n: nat): (t: string)
    ensures t != "" && AllDigits(t)
    ensures t[0] == '0' ==> n == 0 && t == "0"
  {
    if n < 10 then [DigitChar(n)] else Decimal(n / 10) + [DigitChar(n % 10)]
  }

  /** The number that the digits t spell when acc has been read before them. */
  function DigitsValue(t: string, acc: nat): nat
    requires AllDigits(t)
  {
    if t == "" then acc else DigitsValue(t[1..], acc * 10 + DigitValue(t[0]))
  }

  lemma {:induction false} DigitsValueSnoc(t: string, c: char, acc: nat)
    requires AllDigits(t) && IsDigit(c)
    ensures DigitsValue(t + [c], acc) == DigitsValue(t, acc) * 10 + DigitValue(c)
  {
    if t != "" {
      assert (t + [c])[1..] == t[1..] + [c];
      DigitsValueSnoc(t[1..], c, acc * 10 + DigitValue(t[0]));
    }
  }

  lemma {:induction false} DecimalSpells(n: nat)
    ensures DigitsValue(Decimal(n), 0) == n
  {
    if n >= 10 {
      DecimalSpells(n / 10);
      DigitsValueSnoc(Decimal(n / 10), DigitChar(n % 10), 0);
    }
  }

  // ---------- Text ----------

  function HexDigit(d: nat): (c: char)
    requires d < 16
    ensures HexValue(c) == Some(d)
  {
    if d < 10 then DigitChar(d) else (d - 10 + 'a' as int) as char
  }

  function HexValue(c: char): (d: Option<nat>)
    ensures d.Some? ==> d.value < 16
  {
    if '0' <= c <= '9' then Some(c as int - '0' as int)
    else if 'a' <= c <= 'f' then Some(c as int - 'a' as int + 10)
    else if 'A' <= c <= 'F' then Some(c as int - 'A' as int + 10)
    else None
  }

  const BACKSPACE: char := 8 as char
  const FORM_FEED: char := 12 as char

  function EscapeChar(c: char): (t: string)
    ensures t != ""
  {
    if c == '"' then "\\\""
    else if c == '\\' then "\\\\"
    else if c == BACKSPACE then "\\b"
    else if c == FORM_FEED then "\\f"
    else if c == '\n' then "\\n"
    else if c == '\r' then "\\r"
    else if c == '\t' then "\\t"
    else if c < ' ' then "\\u00" + [HexDigit(c as int / 16), HexDigit(c as int % 16)]
    else [c]
  }

  function Escape(s: string): string {
    if s == "" then "" else EscapeChar(s[0]) + Escape(s[1..])
  }

  function Quote(s: string): (t: string)
    ensures t != "" && t[0] == '"'
  {
    "\"" + (Escape(s) + "\"")
  }

  function PrintInt(n: int): string {
    if n < 0 then "-" + Decimal(-n) else Decimal(n)
  }

  /** JSON.stringify with one argument: no white space. */
  function Print(v: Json): string
    decreases v, 1
  {
    match v
    case Null => "null"
    case Bool(b) => if b then "true" else "false"
    case Num(n) => PrintInt(n)
    case Str(s) => Quote(s)
    case Arr(items) => "[" + (PrintItems(items) + "]")
    case Obj(ms) => "{" + (PrintMembers(ms) + "}")
  }

  function PrintItems(xs: seq<Json>): string
    decreases xs, 0
  {
    if xs == [] then ""
    else if |xs| == 1 then Print(xs[0])
    else Print(xs[0]) + ("," + PrintItems(xs[1..]))
  }

  function PrintMembers(ms: seq<Entry<Json>>): string
    decreases ms, 0
  {
    if ms == [] then ""
    else if |ms| == 1 then PrintMember(ms[0].key, Print(ms[0].value))
    else PrintMember(ms[0].key, Print(ms[0].value)) + ("," + PrintMembers(ms[1..]))
  }

  function PrintMember(key: string, text: string): string {
    Quote(key) + (":" + text)
  }

  // ---------- Reader ----------

  datatype Parsed<+T> = Parsed(value: T, rest: string)

  predicate IsSpace(c: char) { c == ' ' || c == '\t' || c == '\n' || c == '\r' }

  function SkipSpace(t: string): (r: string)
    ensures |r| <= |t|
    ensures r != "" ==> !IsSpace(r[0])
  {
    if t != "" && IsSpace(t[0]) then SkipSpace(t[1..]) else t
  }

  function Expect(c: char, t: string): (r: Option<string>)
    ensures r.Some? ==> |r.value| < |t|
  {
    if t != "" && t[0] == c then Some(t[1..]) else None
  }

  function ReadDigits(t: string, acc: nat): (r: Parsed<nat>)
    ensures |r.rest| <= |t|
  {
    if t != "" && IsDigit(t[0]) then ReadDigits(t[1..], acc * 10 + DigitValue(t[0])) else Parsed(acc, t)
  }

  /** int = zero / ( digit1-9 *DIGIT ), without a fraction or an exponent. */
  function ParseNat(t: string): (r: Option<Parsed<nat>>)
    ensures r.Some? ==> |r.value.rest| < |t|
  {
    if t == "" || !IsDigit(t[0]) then None
    else if t[0] == '0' then Some(Parsed(0, t[1..]))
    else Some(ReadDigits(t[1..], DigitValue(t[0])))
  }

  function ToSafe(n: int, rest: string): (r: Option<Parsed<Json>>)
    ensures r.Some? ==> r.value.rest == rest
  {
    if -MAX_SAFE_INTEGER <= n <= MAX_SAFE_INTEGER then Some(Parsed(Num(n), rest)) else None
  }

  function ParseNumber(t: string): (r: Option<Parsed<Json>>)
    ensures r.Some? ==> |r.value.rest| < |t|
  {
    if t != "" && t[0] == '-' then
      match ParseNat(t[1..])
      case None => None
      case Some(p) => var n: int := p.value; ToSafe(-n, p.rest)
    else
      match ParseNat(t)
      case None => None
      case Some(p) => ToSafe(p.value, p.rest)
  }

  function ParseHex4(t: string): (r: Option<Parsed<nat>>)
    ensures r.Some? ==> |r.value.rest| < |t| && r.value.value < 0x1_0000
  {
    if |t| < 4 then None
    else
      match (HexValue(t[0]), HexValue(t[1]), HexValue(t[2]), HexValue(t[3]))
      case (Some(a), Some(b), Some(c), Some(d)) => Some(Parsed(((a * 16 + b) * 16 + c) * 16 + d, t[4..]))
      case _ => None
  }

  /** What follows \u: one code unit, or a surrogate pair written as two escapes. */
  function ParseUnicodeEscape(t: string): (r: Option<Parsed<char>>)
    ensures r.Some? ==> |r.value.rest| < |t|
  {
    match ParseHex4(t)
    case None => None
    case Some(hi) =>
      if 0xD800 <= hi.value < 0xDC00 then
        if |hi.rest| < 2 || hi.rest[..2] != "\\u" then None
        else
          match ParseHex4(hi.rest[2..])
          case None => None
          case Some(lo) =>
            if 0xDC00 <= lo.value < 0xE000 then
              Some(Parsed((0x1_0000 + (hi.value - 0xD800) * 0x400 + (lo.value - 0xDC00)) as char, lo.rest))
            else None
      else if 0xDC00 <= hi.value < 0xE000 then None
      else Some(Parsed(hi.value as char, hi.rest))
  }

  /** What follows a backslash. */
  function ParseEscape(t: string): (r: Option<Parsed<char>>)
    ensures r.Some? ==> |r.value.rest| < |t|
  {
    if t == "" then None
    else
      match t[0]
      case '"' => Some(Parsed('"', t[1..]))
      case '\\' => Some(Parsed('\\', t[1..]))
      case '/' => Some(Parsed('/', t[1..]))
      case 'b' => Some(Parsed(BACKSPACE, t[1..]))
      case 'f' => Some(Parsed(FORM_FEED, t[1..]))
      case 'n' => Some(Parsed('\n', t[1..]))
      case 'r' => Some(Parsed('\r', t[1..]))
      case 't' => Some(Parsed('\t', t[1..]))
      case 'u' => ParseUnicodeEscape(t[1..])
      case _ => None
  }

  /** The characters of a string up to and including the closing quotation mark. */
  function ParseChars(t: string): (r: Option<Parsed<string>>)
    ensures r.Some? ==> |r.value.rest| < |t|
    decreases |t|
  {
    if t == "" then None
    else if t[0] == '"' then Some(Parsed("", t[1..]))
    else if t[0] == '\\' then
      match ParseEscape(t[1..])
      case None => None
      case Some(c) => Prepend(c.value, ParseChars(c.rest))
    else if t[0] < ' ' then None
    else Prepend(t[0], ParseChars(t[1..]))
  }

  function Prepend(c: char, p: Option<Parsed<string>>): (r: Option<Parsed<string>>)
    ensures r.Some? ==> p.Some? && r.value.rest == p.value.rest
  {
    match p
    case None => None
    case Some(q) => Some(Parsed([c] + q.value, q.rest))
  }

  function ParseString(t: string): (r: Option<Parsed<string>>)
    ensures r.Some? ==> |r.value.rest| < |t|
  {
    if t != "" && t[0] == '"' then ParseChars(t[1..]) else None
  }

  function ParseValue(t: string): (r: Option<Parsed<Json>>)
    ensures r.Some? ==> |r.value.rest| < |t|
    decreases |t|, 0
  {
    var u := SkipSpace(t);
    if u == "" then None
    else if "null" <= u then Some(Parsed(Null, u[4..]))
    else if "true" <= u then Some(Parsed(Bool(true), u[4..]))
    else if "false" <= u then Some(Parsed(Bool(false), u[5..]))
    else
      match u[0]
      case '"' =>
        (match ParseString(u)
         case None => None
         case Some(s) => Some(Parsed(Str(s.value), s.rest)))
      case '[' =>
        var w := SkipSpace(u[1..]);
        if w != "" && w[0] == ']' then Some(Parsed(Arr([]), w[1..]))
        else
          (match ParseItems(w)
           case None => None
           case Some(xs) => Some(Parsed(Arr(xs.value), xs.rest)))
      case '{' =>
        var w := SkipSpace(u[1..]);
        if w != "" && w[0] == '}' then Some(Parsed(Obj([]), w[1..]))
        else
          (match ParseMembers(w)
           case None => None
           case Some(ms) => Some(Parsed(Obj(ms.value), ms.rest)))
      case _ => ParseNumber(u)
  }

  /** One or more values separated by commas, then the closing bracket. */
  function ParseItems(t: string): (r: Option<Parsed<seq<Json>>>)
    ensures r.Some? ==> |r.value.rest| < |t|
    decreases |t|, 1
  {
    match ParseValue(t)
    case None => None
    case Some(x) =>
      var w := SkipSpace(x.rest);
      if w == "" then None
      else if w[0] == ']' then Some(Parsed([x.value], w[1..]))
      else if w[0] == ',' then
        match ParseItems(w[1..])
        case None => None
        case Some(xs) => Some(Parsed([x.value] + xs.value, xs.rest))
      else None
  }

  function ParseMember(t: string): (r: Option<Parsed<Entry<Json>>>)
    ensures r.Some? ==> |r.value.rest| < |t|
    decreases |t|, 1
  {
    match ParseString(SkipSpace(t))
    case None => None
    case Some(k) =>
      match Expect(':', SkipSpace(k.rest))
      case None => None
      case Some(w) =>
        match ParseValue(w)
        case None => None
        case Some(v) => Some(Parsed(Entry(k.value, v.value), v.rest))
  }

  /** One or more members separated by commas, then the closing brace. */
  function ParseMembers(t: string): (r: Option<Parsed<seq<Entry<Json>>>>)
    ensures r.Some? ==> |r.value.rest| < |t|
    decreases |t|, 2
  {
    match ParseMember(t)
    case None => None
    case Some(m) =>
      var w := SkipSpace(m.rest);
      if w == "" then None
      else if w[0] == '}' then Some(Parsed([m.value], w[1..]))
      else if w[0] == ',' then
        match ParseMembers(w[1..])
        case None => None
        case Some(ms) => Some(Parsed([m.value] + ms.value, ms.rest))
      else None
  }

  /** A JSON text: one value with white space around it, and nothing more. */
  function Parse(t: string): Option<Json> {
    match ParseValue(t)
    case None => None
    case Some(p) => if SkipSpace(p.rest) == "" then Some(p.value) else None
  }

  // ---------- Reading back what was printed ----------

  predicate NoDigitFirst(t: string) { t == "" || !IsDigit(t[0]) }

  lemma {:induction false} ReadDigitsOfDigits(ds: string, r: string, acc: nat)
    requires AllDigits(ds) && NoDigitFirst(r)
    ensures ReadDigits(ds + r, acc) == Parsed(DigitsValue(ds, acc), r)
  {
    if ds == "" {
      assert ds + r == r;
    } else {
      assert (ds + r)[1..] == ds[1..] + r;
      ReadDigitsOfDigits(ds[1..], r, acc * 10 + DigitValue(ds[0]));
    }
  }

  lemma ParsePrintedNat(n: nat, r: string)
    requires NoDigitFirst(r)
    ensures ParseNat(Decimal(n) + r) == Some(Parsed(n, r))
  {
    var ds := Decimal(n);
    DecimalSpells(n);
    assert (ds + r)[1..] == ds[1..] + r;
    if ds[0] == '0' {
      assert ds[1..] + r == r;
    } else {
      ReadDigitsOfDigits(ds[1..], r, DigitValue(ds[0]));
    }
  }

  lemma ParsePrintedInt(n: SafeInt, r: string)
    requires NoDigitFirst(r)
    ensures ParseNumber(PrintInt(n) + r) == Some(Parsed(Num(n), r))
    ensures PrintInt(n)[0] == '-' || IsDigit(PrintInt(n)[0])
  {
    if n < 0 {
      ParsePrintedNat(-n, r);
      ParseNegative(Decimal(-n), n, r);
    } else {
      ParsePrintedNat(n, r);
    }
  }

  lemma ParseNegative(digits: string, n: SafeInt, r: string)
    requires n < 0 && ParseNat(digits + r) == Some(Parsed(-n, r))
    ensures ParseNumber("-" + digits + r) == Some(Parsed(Num(n), r))
  {
    assert ("-" + digits + r)[1..] == digits + r;
  }

  lemma ParseEscapedChar(c: char, r: string)
    ensures ParseChars(EscapeChar(c) + r) == Prepend(c, ParseChars(r))
  {
    if EscapeChar(c) == [c] {
      ParsePlainChar(c, r);
    } else {
      var u := EscapeChar(c)[1..] + r;
      assert EscapeChar(c) + r == "\\" + u;
      if |EscapeChar(c)| == 2 {
        ParseShortEscape(c, r);
      } else {
        ParseControlEscape(c, r);
        assert u == "u00" + [HexDigit(c as int / 16), HexDigit(c as int % 16)] + r;
      }
      ParseBackslash(u, c, r);
    }
  }

  lemma ParsePlainChar(c: char, r: string)
    requires c >= ' ' && c != '"' && c != '\\'
    ensures ParseChars([c] + r) == Prepend(c, ParseChars(r))
  {
    assert ([c] + r)[1..] == r;
  }

  lemma ParseBackslash(u: string, c: char, r: string)
    requires ParseEscape(u) == Some(Parsed(c, r))
    ensures ParseChars("\\" + u) == Prepend(c, ParseChars(r))
  {
    assert ("\\" + u)[1..] == u;
  }

  lemma ParseShortEscape(c: char, r: string)
    requires |EscapeChar(c)| == 2
    ensures ParseEscape(EscapeChar(c)[1..] + r) == Some(Parsed(c, r))
  {
    var u := EscapeChar(c)[1..] + r;
    assert u[0] == EscapeChar(c)[1] && u[1..] == r;
  }

  lemma ParseControlEscape(c: char, r: string)
    requires c < ' '
    ensures ParseEscape("u00" + [HexDigit(c as int / 16), HexDigit(c as int % 16)] + r) == Some(Parsed(c, r))
  {
    var hi, lo := c as int / 16, c as int % 16;
    var h := ("u00" + [HexDigit(hi), HexDigit(lo)] + r)[1..];
    assert h[4..] == r;
    assert HexValue(h[0]) == Some(0) && HexValue(h[1]) == Some(0);
    assert HexValue(h[2]) == Some(hi) && HexValue(h[3]) == Some(lo);
    assert ParseHex4(h) == Some(Parsed(hi * 16 + lo, r));
    assert ParseUnicodeEscape(h) == Some(Parsed(c, r));
  }

  lemma {:induction false} ParseEscaped(s: string, r: string)
    ensures ParseChars(Escape(s) + ("\"" + r)) == Some(Parsed(s, r))
  {
    var q := "\"" + r;
    if s == "" {
      assert Escape(s) + q == q;
      assert q[1..] == r;
    } else {
      assert Escape(s) + q == EscapeChar(s[0]) + (Escape(s[1..]) + q);
      ParseEscapedChar(s[0], Escape(s[1..]) + q);
      ParseEscaped(s[1..], r);
      assert [s[0]] + s[1..] == s;
    }
  }

  lemma ParseQuoted(s: string, r: string)
    ensures ParseString(Quote(s) + r) == Some(Parsed(s, r))
  {
    assert (Quote(s) + r)[1..] == Escape(s) + ("\"" + r);
    ParseEscaped(s, r);
  }

  /** The first character of a printed value, which decides how the reader goes on. */
  lemma PrintStarts(v: Json)
    ensures Print(v) != ""
    ensures var c := Print(v)[0];
            match v
            case Null => c == 'n'
            case Bool(_) => c == 't' || c == 'f'
            case Num(_) => c == '-' || IsDigit(c)
            case Str(_) => c == '"'
            case Arr(_) => c == '['
            case Obj(_) => c == '{'
  {
  }

  lemma ParsePrintedScalar(v: Json, r: string)
    requires NoDigitFirst(r) && !v.Arr? && !v.Obj?
    ensures ParseValue(Print(v) + r) == Some(Parsed(v, r))
  {
    var t := Print(v) + r;
    PrintStarts(v);
    assert t[0] == Print(v)[0] && SkipSpace(t) == t;
    match v
    case Null => assert "null" <= t;
    case Bool(b) => assert (if b then "true" else "false") <= t;
    case Num(n) => ParsePrintedInt(n, r);
    case Str(s) => ParseQuoted(s, r);
  }

  /** Reading a printed value, followed by anything but a digit, gives the value back and stops after it. */
  lemma {:induction false} ParsePrinted(v: Json, r: string)
    requires NoDigitFirst(r)
    ensures ParseValue(Print(v) + r) == Some(Parsed(v, r))
    decreases v, 1
  {
    if v.Arr? {
      ParsePrintedArr(v.items, r);
    } else if v.Obj? {
      ParsePrintedObj(v.members, r);
    } else {
      ParsePrintedScalar(v, r);
    }
  }

  lemma RegroupAtComma(a: string, b: string, c: string)
    ensures a + ("," + b) + c == a + ("," + (b + c))
  {
  }

  lemma {:induction false} ParsePrintedArr(items: seq<Json>, r: string)
    ensures ParseValue(Print(Arr(items)) + r) == Some(Parsed(Arr(items), r))
    decreases items, 1
  {
    var w := PrintItems(items) + ("]" + r);
    assert Print(Arr(items)) + r == "[" + w;
    if items == [] {
      assert w == "]" + r;
      assert w[1..] == r;
    } else {
      PrintStarts(items[0]);
      assert w[0] == PrintItems(items)[0] == Print(items[0])[0];
      ParsePrintedItems(items, r);
    }
    ParseOpenBracket(w);
  }

  lemma {:induction false} ParsePrintedObj(ms: seq<Entry<Json>>, r: string)
    ensures ParseValue(Print(Obj(ms)) + r) == Some(Parsed(Obj(ms), r))
    decreases ms, 1
  {
    var w := PrintMembers(ms) + ("}" + r);
    assert Print(Obj(ms)) + r == "{" + w;
    ParseOpenBrace(w);
    if ms == [] {
      assert w == "}" + r;
      assert w[1..] == r;
    } else {
      assert w[0] == PrintMembers(ms)[0] == '"';
      ParsePrintedMembers(ms, r);
    }
  }

  lemma ParseOpenBracket(w: string)
    requires w != "" && !IsSpace(w[0])
    ensures w[0] == ']' ==> ParseValue("[" + w) == Some(Parsed(Arr([]), w[1..]))
    ensures w[0] != ']' && ParseItems(w).Some? ==>
              ParseValue("[" + w) == Some(Parsed(Arr(ParseItems(w).value.value), ParseItems(w).value.rest))
  {
    assert ("[" + w)[1..] == w;
  }

  lemma ParseOpenBrace(w: string)
    requires w != "" && !IsSpace(w[0])
    ensures w[0] == '}' ==> ParseValue("{" + w) == Some(Parsed(Obj([]), w[1..]))
    ensures w[0] != '}' && ParseMembers(w).Some? ==>
              ParseValue("{" + w) == Some(Parsed(Obj(ParseMembers(w).value.value), ParseMembers(w).value.rest))
  {
    assert ("{" + w)[1..] == w;
  }

  lemma {:induction false} ParsePrintedItems(xs: seq<Json>, r: string)
    requires xs != []
    ensures ParseItems(PrintItems(xs) + ("]" + r)) == Some(Parsed(xs, r))
    decreases xs, 0
  {
    var first, rest := Print(xs[0]), xs[1..];
    if |xs| == 1 {
      ParsePrinted(xs[0], "]" + r);
      ParseLastItem(first + ("]" + r), xs[0], r);
      assert [xs[0]] == xs;
    } else {
      var text := PrintItems(rest);
      ParsePrinted(xs[0], "," + (text + ("]" + r)));
      ParsePrintedItems(rest, r);
      ParseItemsText(first, text, xs[0], rest, r);
      assert [xs[0]] + rest == xs;
      assert PrintItems(xs) == first + ("," + text);
    }
  }

  lemma ParseItemsText(first: string, text: string, x: Json, xs: seq<Json>, r: string)
    requires ParseValue(first + ("," + (text + ("]" + r)))) == Some(Parsed(x, "," + (text + ("]" + r))))
    requires ParseItems(text + ("]" + r)) == Some(Parsed(xs, r))
    ensures ParseItems(first + ("," + text) + ("]" + r)) == Some(Parsed([x] + xs, r))
  {
    var tail := text + ("]" + r);
    RegroupAtComma(first, text, "]" + r);
    ParseItemThenMore(first + ("," + tail), x, tail);
  }

  lemma ParseLastItem(t: string, x: Json, r: string)
    requires ParseValue(t) == Some(Parsed(x, "]" + r))
    ensures ParseItems(t) == Some(Parsed([x], r))
  {
    assert ("]" + r)[1..] == r;
  }

  lemma ParseItemThenMore(t: string, x: Json, tail: string)
    requires ParseValue(t) == Some(Parsed(x, "," + tail))
    requires ParseItems(tail).Some?
    ensures ParseItems(t) == Some(Parsed([x] + ParseItems(tail).value.value, ParseItems(tail).value.rest))
  {
    assert ("," + tail)[1..] == tail;
  }

  lemma {:induction false} ParsePrintedMember(m: Entry<Json>, r: string)
    requires NoDigitFirst(r)
    ensures ParseMember(PrintMember(m.key, Print(m.value)) + r) == Some(Parsed(m, r))
    decreases m, 2
  {
    ParsePrinted(m.value, r);
    ParseMemberText(m.key, Print(m.value), m.value, r);
  }

  lemma ParseMemberText(key: string, text: string, v: Json, r: string)
    requires ParseValue(text + r) == Some(Parsed(v, r))
    ensures ParseMember(PrintMember(key, text) + r) == Some(Parsed(Entry(key, v), r))
  {
    var after := ":" + (text + r);
    var t := Quote(key) + after;
    assert PrintMember(key, text) + r == t;
    ParseQuoted(key, after);
    assert after[1..] == text + r;
    ParseMemberParts(t, key, after, v, r);
  }

  lemma ParseMemberParts(t: string, key: string, after: string, v: Json, r: string)
    requires t != "" && !IsSpace(t[0]) && ParseString(t) == Some(Parsed(key, after))
    requires after != "" && after[0] == ':' && ParseValue(after[1..]) == Some(Parsed(v, r))
    ensures ParseMember(t) == Some(Parsed(Entry(key, v), r))
  {
    assert SkipSpace(t) == t && SkipSpace(after) == after;
  }

  lemma {:induction false} ParsePrintedMembers(ms: seq<Entry<Json>>, r: string)
    requires ms != []
    ensures ParseMembers(PrintMembers(ms) + ("}" + r)) == Some(Parsed(ms, r))
    decreases ms, 0
  {
    var first, rest := PrintMember(ms[0].key, Print(ms[0].value)), ms[1..];
    if |ms| == 1 {
      ParsePrintedMember(ms[0], "}" + r);
      ParseLastMember(first + ("}" + r), ms[0], r);
      assert [ms[0]] == ms;
    } else {
      var text := PrintMembers(rest);
      ParsePrintedMember(ms[0], "," + (text + ("}" + r)));
      ParsePrintedMembers(rest, r);
      ParseMembersText(first, text, ms[0], rest, r);
      assert [ms[0]] + rest == ms;
      assert PrintMembers(ms) == first + ("," + text);
    }
  }

  lemma ParseMembersText(first: string, text: string, m: Entry<Json>, ms: seq<Entry<Json>>, r: string)
    requires ParseMember(first + ("," + (text + ("}" + r)))) == Some(Parsed(m, "," + (text + ("}" + r))))
    requires ParseMembers(text + ("}" + r)) == Some(Parsed(ms, r))
    ensures ParseMembers(first + ("," + text) + ("}" + r)) == Some(Parsed([m] + ms, r))
  {
    var tail := text + ("}" + r);
    RegroupAtComma(first, text, "}" + r);
    ParseMemberThenMore(first + ("," + tail), m, tail);
  }

  lemma ParseLastMember(t: string, m: Entry<Json>, r: string)
    requires ParseMember(t) == Some(Parsed(m, "}" + r))
    ensures ParseMembers(t) == Some(Parsed([m], r))
  {
    assert ("}" + r)[1..] == r;
  }

  lemma ParseMemberThenMore(t: string, m: Entry<Json>, tail: string)
    requires ParseMember(t) == Some(Parsed(m, "," + tail))
    requires ParseMembers(tail).Some?
    ensures ParseMembers(t) == Some(Parsed([m] + ParseMembers(tail).value.value, ParseMembers(tail).value.rest))
  {
    assert ("," + tail)[1..] == tail;
  }

  // ---------- The text in plain words ----------

  /** No character needs an escape. */
  predicate IsPlain(c: char) { c >= ' ' && c != '"' && c != '\\' }

  predicate Plain(s: string) { forall i | 0 <= i < |s| :: IsPlain(s[i]) }

  /** Such characters stand for themselves. */
  lemma PlainText(s: string)
    requires Plain(s)
    ensures Quote(s) == "\"" + s + "\""
  {
    PlainEscape(s);
  }

  lemma {:induction false} PlainEscape(s: string)
    requires Plain(s)
    ensures Escape(s) == s
  {
    if s != "" {
      PlainEscape(s[1..]);
      PlainChar(s[0]);
      assert s == [s[0]] + s[1..];
    }
  }

  lemma PlainChar(c: char)
    requires IsPlain(c)
    ensures EscapeChar(c) == [c]
  {
  }

  /** What the others are written as (section 7 of RFC 8259), and how a number is (section 6). */
  lemma EscapedText(c: char)
    ensures EscapeChar(c) ==
            if c == '"' then "\\\""
            else if c == '\\' then "\\\\"
            else if c as int == 8 then "\\b"
            else if c as int == 9 then "\\t"
            else if c as int == 10 then "\\n"
            else if c as int == 12 then "\\f"
            else if c as int == 13 then "\\r"
            else if c as int < 16 then "\\u000" + ["0123456789abcdef"[c as int]]
            else if c as int < 32 then "\\u001" + ["0123456789abcdef"[c as int - 16]]
            else [c]
  {
    HexDigitText(c as int % 16);
    if c as int < 32 {
      HexDigitText(c as int / 16);
    }
  }

  /** Both cases of the letters are read. */
  lemma HexValueExactly(c: char, d: nat)
    requires d < 16
    ensures HexValue(c) == Some(d) <==> c == "0123456789abcdef"[d] || c == "0123456789ABCDEF"[d]
  {
    if d >= 10 {
      assert "0123456789abcdef"[d] as int == 'a' as int + (d - 10);
      assert "0123456789ABCDEF"[d] as int == 'A' as int + (d - 10);
    }
  }

  lemma HexDigitText(d: nat)
    requires d < 16
    ensures HexDigit(d) == "0123456789abcdef"[d]
  {
  }

  lemma {:induction false} DecimalText(n: nat)
    ensures Decimal(n) == (if n < 10 then "" else Decimal(n / 10)) + ["0123456789"[n % 10]]
  {
    assert DigitChar(n % 10) == "0123456789"[n % 10];
  }

  lemma NumberText(n: nat)
    requires n <= 9007199254740991
    ensures Print(Num(n)) == Decimal(n)
    ensures n > 0 ==> Print(Num(-(n as int))) == "-" + Decimal(n)
  {
  }

  /** What a reader skips (section 2 of RFC 8259). */
  lemma SpaceExactly(c: char, t: string)
    ensures SkipSpace([c] + t) == SkipSpace(t) <==> c as int in {0x20, 0x09, 0x0A, 0x0D}
  {
    assert ([c] + t)[1..] == t;
  }

  function Hex4(u: nat): string
    requires u < 0x1_0000
  {
    [HexDigit(u / 0x1000), HexDigit(u / 0x100 % 16), HexDigit(u / 0x10 % 16), HexDigit(u % 16)]
  }

  lemma FourDigitsRead(a: nat, b: nat, c: nat, d: nat, rest: string)
    requires a < 16 && b < 16 && c < 16 && d < 16
    ensures ParseHex4([HexDigit(a), HexDigit(b), HexDigit(c), HexDigit(d)] + rest)
         == Some(Parsed(((a * 16 + b) * 16 + c) * 16 + d, rest))
  {
    var t := [HexDigit(a), HexDigit(b), HexDigit(c), HexDigit(d)] + rest;
    assert t[0] == HexDigit(a) && t[1] == HexDigit(b) && t[2] == HexDigit(c) && t[3] == HexDigit(d);
    assert t[4..] == rest;
  }

  lemma FourDigits(u: nat)
    requires u < 0x1_0000
    ensures ((u / 0x1000 * 16 + u / 0x100 % 16) * 16 + u / 0x10 % 16) * 16 + u % 16 == u
  {
    assert u / 0x10 / 16 == u / 0x100 && u / 0x100 / 16 == u / 0x1000;
  }

  lemma Hex4Reads(u: nat, rest: string)
    requires u < 0x1_0000
    ensures ParseHex4(Hex4(u) + rest) == Some(Parsed(u, rest))
  {
    FourDigitsRead(u / 0x1000, u / 0x100 % 16, u / 0x10 % 16, u % 16, rest);
    FourDigits(u);
  }

  /** A reader takes a character of the basic plane from its code unit in hexadecimal (section 7 of RFC 8259), */
  lemma UnitIsRead(c: char, rest: string)
    requires c as int < 0x1_0000
    ensures ParseEscape("u" + (Hex4(c as int) + rest)) == Some(Parsed(c, rest))
  {
    Hex4Reads(c as int, rest);
    UnicodeEscape(Hex4(c as int) + rest);
  }

  /** and any other from its two surrogates. */
  lemma PairIsRead(c: char, hi: nat, lo: nat, rest: string)
    requires hi < 0x400 && lo < 0x400 && c as int == 0x1_0000 + hi * 0x400 + lo
    ensures ParseEscape("u" + (Hex4(0xD800 + hi) + ("\\u" + (Hex4(0xDC00 + lo) + rest)))) == Some(Parsed(c, rest))
  {
    Hex4Reads(0xD800 + hi, "\\u" + (Hex4(0xDC00 + lo) + rest));
    Hex4Reads(0xDC00 + lo, rest);
    PairInParts(Hex4(0xD800 + hi) + ("\\u" + (Hex4(0xDC00 + lo) + rest)), 0xD800 + hi, 0xDC00 + lo,
                Hex4(0xDC00 + lo) + rest, rest);
    UnicodeEscape(Hex4(0xD800 + hi) + ("\\u" + (Hex4(0xDC00 + lo) + rest)));
  }

  lemma UnicodeEscape(t: string)
    ensures ParseEscape("u" + t) == ParseUnicodeEscape(t)
  {
    assert ("u" + t)[1..] == t;
  }

  lemma PairInParts(t: string, hi: nat, lo: nat, second: string, rest: string)
    requires 0xD800 <= hi < 0xDC00 <= lo < 0xE000
    requires ParseHex4(t) == Some(Parsed(hi, "\\u" + second)) && ParseHex4(second) == Some(Parsed(lo, rest))
    ensures ParseUnicodeEscape(t) == Some(Parsed((0x1_0000 + (hi - 0xD800) * 0x400 + (lo - 0xDC00)) as char, rest))
  {
    assert ("\\u" + second)[..2] == "\\u" && ("\\u" + second)[2..] == second;
  }

  lemma SolidusIsRead(rest: string)
    ensures ParseEscape("/" + rest) == Some(Parsed('/', rest))
  {
    assert ("/" + rest)[1..] == rest;
  }

  /** Parsing undoes printing. */
  lemma ParsePrintRoundTrip(v: Json)
    ensures Parse(Print(v)) == Some(v)
  {
    ParsePrinted(v, "");
    assert Print(v) + "" == Print(v);
  }

  /** Two values with the same text are the same value, member order included. */
  lemma PrintIsInjective(v: Json, w: Json)
    requires Print(v) == Print(w)
    ensures v == w
  {
    ParsePrintRoundTrip(v);
    ParsePrintRoundTrip(w);
  }
}
