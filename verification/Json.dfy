/** Compact JSON as `JSON.stringify` prints it, and the fact that its text determines the
    value. Strings are escaped as in section 7 of RFC 8259; numbers are naturals. */
module Json {
  import opened Common

  datatype Json =
    | Num(n: nat)
    | Str(s: string)
    | Bool(b: bool)
    | Arr(items: seq<Json>)
    | Obj(fields: seq<Field>)

  datatype Field = Field(key: string, value: Json)

  // ------------------------------------------------------------------------
  // Decimal numbers
  // ------------------------------------------------------------------------

  predicate IsDigit(c: char) { '0' <= c <= '9' }

  function DigitChar(d: nat): (c: char)
    requires d < 10
    ensures IsDigit(c) && c as int - '0' as int == d
  {
    (d + '0' as int) as char
  }

  function Dec(n: nat): (s: string)
    ensures |s| > 0 && forall i :: 0 <= i < |s| ==> IsDigit(s[i])
  {
    if n < 10 then [DigitChar(n)] else Dec(n / 10) + [DigitChar(n % 10)]
  }

  function DecValue(s: string): nat
    requires forall i :: 0 <= i < |s| ==> IsDigit(s[i])
  {
    if |s| == 0 then 0
    else
      var last := s[|s| - 1];
      assert IsDigit(last);
      10 * DecValue(s[..|s| - 1]) + (last as int - '0' as int)
  }

  lemma {:induction false} DecRoundTrip(n: nat)
    ensures DecValue(Dec(n)) == n
  {
    if n >= 10 {
      DecRoundTrip(n / 10);
      assert Dec(n)[..|Dec(n)| - 1] == Dec(n / 10);
    } else {
      assert Dec(n)[..0] == [];
    }
  }

  /** Digits are decimal and the most significant comes first. */
  lemma KnownDecimal()
    ensures Dec(1042) == "1042"
  {
    assert Dec(10) == "10";
  }

  /** A context in which a number can end. */
  predicate EndsNumber(r: string) { |r| == 0 || !IsDigit(r[0]) }

  /** The length of the digits a text starts with. */
  function DigitRun(s: string): (n: nat)
    ensures n <= |s| && forall i :: 0 <= i < n ==> IsDigit(s[i])
  {
    if |s| == 0 || !IsDigit(s[0]) then 0 else 1 + DigitRun(s[1..])
  }

  lemma {:induction false} RunOfDigits(a: string, r: string)
    requires EndsNumber(r) && forall i :: 0 <= i < |a| ==> IsDigit(a[i])
    ensures DigitRun(a + r) == |a|
    decreases |a|
  {
    if |a| == 0 {
      assert a + r == r;
    } else {
      RunOfDigits(a[1..], r);
      assert (a + r)[1..] == a[1..] + r;
    }
  }

  /** No leading zero but in zero itself. */
  lemma {:induction false} DecLeads(n: nat)
    ensures Dec(n)[0] == '0' <==> n == 0
    ensures n == 0 ==> |Dec(n)| == 1
  {
    if n >= 10 { DecLeads(n / 10); }
  }

  // ------------------------------------------------------------------------
  // Strings
  // ------------------------------------------------------------------------

  const QUOTE: char := '\"'
  const BACKSLASH: char := '\\'

  function HexChar(d: nat): (c: char)
    requires d < 16
    ensures c as int == if d < 10 then d + 48 else d + 87
  {
    if d < 10 then (d + 48) as char else (d + 87) as char
  }

  /** How one character appears inside a string literal. */
  function Escape(c: char): (e: string)
    ensures |e| > 0 && e[0] != QUOTE
  {
    var n := c as int;
    if c == QUOTE then [BACKSLASH, QUOTE]
    else if c == BACKSLASH then [BACKSLASH, BACKSLASH]
    else if n == 0x08 then [BACKSLASH, 'b']
    else if n == 0x09 then [BACKSLASH, 't']
    else if n == 0x0a then [BACKSLASH, 'n']
    else if n == 0x0c then [BACKSLASH, 'f']
    else if n == 0x0d then [BACKSLASH, 'r']
    else if n < 0x20 then [BACKSLASH, 'u', '0', '0', HexChar(n / 16), HexChar(n % 16)]
    else [c]
  }

  function EscapeAll(s: string): string {
    if |s| == 0 then [] else Escape(s[0]) + EscapeAll(s[1..])
  }

  function Quote(s: string): (q: string)
    ensures |q| >= 2 && q[0] == QUOTE
  {
    [QUOTE] + EscapeAll(s) + [QUOTE]
  }

  /** A hexadecimal digit of either case. */
  function HexValue(c: char): (v: Option<nat>)
    ensures v.Some? ==> v.value < 16
  {
    if '0' <= c <= '9' then Some(c as int - '0' as int)
    else if 'a' <= c <= 'f' then Some(c as int - 'a' as int + 10)
    else if 'A' <= c <= 'F' then Some(c as int - 'A' as int + 10)
    else None
  }

  predicate PlainChar(c: char) { c as int >= 0x20 && c != QUOTE && c != BACKSLASH }

  /** A string without special characters is quoted as it is. */
  lemma {:induction false} PlainQuote(s: string)
    requires forall i :: 0 <= i < |s| ==> PlainChar(s[i])
    ensures EscapeAll(s) == s && Quote(s) == [QUOTE] + s + [QUOTE]
    decreases |s|
  {
    if |s| > 0 {
      PlainQuote(s[1..]);
      assert s == [s[0]] + s[1..];
    }
  }

  // ------------------------------------------------------------------------
  // Values
  // ------------------------------------------------------------------------

  function Print(j: Json): (t: string)
    ensures |t| > 0
    decreases j, 1
  {
    match j
    case Num(n) => Dec(n)
    case Str(s) => Quote(s)
    case Bool(b) => if b then "true" else "false"
    case Arr(items) => ['['] + Items(items) + [']']
    case Obj(fields) => ['{'] + Members(fields) + ['}']
  }

  /** Items separated by commas. */
  function Items(xs: seq<Json>): string
    decreases xs, 0
  {
    if |xs| == 0 then [] else Print(xs[0]) + MoreItems(xs[1..])
  }

  /** Items each preceded by a comma. */
  function MoreItems(xs: seq<Json>): string
    decreases xs, 0
  {
    if |xs| == 0 then [] else [','] + Print(xs[0]) + MoreItems(xs[1..])
  }

  function Pair(f: Field): (t: string)
    ensures |t| > 0 && t[0] == QUOTE
    decreases f, 2
  {
    Quote(f.key) + [':'] + Print(f.value)
  }

  function Members(fs: seq<Field>): string
    decreases fs, 0
  {
    if |fs| == 0 then [] else Pair(fs[0]) + MoreMembers(fs[1..])
  }

  function MoreMembers(fs: seq<Field>): string
    decreases fs, 0
  {
    if |fs| == 0 then [] else [','] + Pair(fs[0]) + MoreMembers(fs[1..])
  }

  // ------------------------------------------------------------------------
  // Reading
  // ------------------------------------------------------------------------

  /** What a reader made of the start of a text, and what is left of it. */
  type Parsed<T> = Option<(T, string)>

  /** One character of a string literal: itself, or an escape of section 7 of RFC 8259. */
  function ReadChar(s: string): (r: Parsed<char>)
    requires |s| > 0
    ensures r.Some? ==> |r.value.1| < |s|
  {
    if s[0] != BACKSLASH then Some((s[0], s[1..]))
    else if |s| < 2 then None
    else
      match s[1]
      case '\"' => Some(('\"', s[2..]))
      case '\\' => Some(('\\', s[2..]))
      case '/' => Some(('/', s[2..]))
      case 'b' => Some((8 as char, s[2..]))
      case 'f' => Some((12 as char, s[2..]))
      case 'n' => Some((10 as char, s[2..]))
      case 'r' => Some((13 as char, s[2..]))
      case 't' => Some((9 as char, s[2..]))
      case 'u' => ReadUnicode(s)
      case _ => None
  }

  /** Four hexadecimal digits after a backslash and `u`; halves of surrogate pairs are not read. */
  function ReadUnicode(s: string): (r: Parsed<char>)
    requires |s| >= 2
    ensures r.Some? ==> |r.value.1| < |s|
  {
    if |s| < 6 || HexValue(s[2]).None? || HexValue(s[3]).None? || HexValue(s[4]).None? || HexValue(s[5]).None? then None
    else
      var n := 4096 * HexValue(s[2]).value + 256 * HexValue(s[3]).value + 16 * HexValue(s[4]).value + HexValue(s[5]).value;
      if 0xD800 <= n < 0xE000 then None else Some((n as char, s[6..]))
  }

  /** The rest of a string literal whose opening quote has been read. */
  function ReadChars(s: string): (r: Parsed<string>)
    ensures r.Some? ==> |r.value.1| < |s|
    decreases |s|
  {
    if |s| == 0 then None
    else if s[0] == QUOTE then Some(("", s[1..]))
    else
      var c := ReadChar(s);
      if c.None? then None
      else
        var rest := ReadChars(c.value.1);
        if rest.None? then None else Some(([c.value.0] + rest.value.0, rest.value.1))
  }

  /** A compact JSON value at the start of a text; numbers are naturals without leading zeros. */
  function ReadValue(s: string): (r: Parsed<Json>)
    ensures r.Some? ==> |r.value.1| < |s|
    decreases |s|, 0
  {
    if |s| == 0 then None
    else if IsDigit(s[0]) then ReadNumber(s)
    else if s[0] == QUOTE then
      var t := ReadChars(s[1..]);
      if t.None? then None else Some((Str(t.value.0), t.value.1))
    else if "true" <= s then Some((Bool(true), s[4..]))
    else if "false" <= s then Some((Bool(false), s[5..]))
    else if s[0] == '[' then
      var xs := ReadItems(s[1..]);
      if xs.None? then None else Some((Arr(xs.value.0), xs.value.1))
    else if s[0] == '{' then
      var fs := ReadMembers(s[1..]);
      if fs.None? then None else Some((Obj(fs.value.0), fs.value.1))
    else None
  }

  function ReadNumber(s: string): (r: Parsed<Json>)
    requires |s| > 0 && IsDigit(s[0])
    ensures r.Some? ==> |r.value.1| < |s|
  {
    var n := DigitRun(s);
    if s[0] == '0' && n > 1 then None else Some((Num(DecValue(s[..n])), s[n..]))
  }

  function ReadItems(s: string): (r: Parsed<seq<Json>>)
    ensures r.Some? ==> |r.value.1| < |s|
    decreases |s|, 1
  {
    if |s| > 0 && s[0] == ']' then Some(([], s[1..]))
    else
      var x := ReadValue(s);
      if x.None? then None
      else
        var xs := ReadMoreItems(x.value.1);
        if xs.None? then None else Some(([x.value.0] + xs.value.0, xs.value.1))
  }

  function ReadMoreItems(s: string): (r: Parsed<seq<Json>>)
    ensures r.Some? ==> |r.value.1| < |s|
    decreases |s|, 1
  {
    if |s| == 0 then None
    else if s[0] == ']' then Some(([], s[1..]))
    else if s[0] != ',' then None
    else
      var x := ReadValue(s[1..]);
      if x.None? then None
      else
        var xs := ReadMoreItems(x.value.1);
        if xs.None? then None else Some(([x.value.0] + xs.value.0, xs.value.1))
  }

  function ReadMember(s: string): (r: Parsed<Field>)
    ensures r.Some? ==> |r.value.1| < |s|
    decreases |s|, 1
  {
    if |s| == 0 || s[0] != QUOTE then None
    else
      var key := ReadChars(s[1..]);
      if key.None? || |key.value.1| == 0 || key.value.1[0] != ':' then None
      else
        var v := ReadValue(key.value.1[1..]);
        if v.None? then None else Some((Field(key.value.0, v.value.0), v.value.1))
  }

  function ReadMembers(s: string): (r: Parsed<seq<Field>>)
    ensures r.Some? ==> |r.value.1| < |s|
    decreases |s|, 2
  {
    if |s| > 0 && s[0] == '}' then Some(([], s[1..]))
    else
      var f := ReadMember(s);
      if f.None? then None
      else
        var fs := ReadMoreMembers(f.value.1);
        if fs.None? then None else Some(([f.value.0] + fs.value.0, fs.value.1))
  }

  function ReadMoreMembers(s: string): (r: Parsed<seq<Field>>)
    ensures r.Some? ==> |r.value.1| < |s|
    decreases |s|, 2
  {
    if |s| == 0 then None
    else if s[0] == '}' then Some(([], s[1..]))
    else if s[0] != ',' then None
    else
      var f := ReadMember(s[1..]);
      if f.None? then None
      else
        var fs := ReadMoreMembers(f.value.1);
        if fs.None? then None else Some(([f.value.0] + fs.value.0, fs.value.1))
  }

  /** A text that is one value and nothing else. */
  function Read(text: string): Option<Json> {
    var r := ReadValue(text);
    if r.Some? && r.value.1 == "" then Some(r.value.0) else None
  }

  /** The first member of that name. */
  function Get(j: Json, key: string): Option<Json> {
    if j.Obj? then GetIn(j.fields, key) else None
  }

  function GetIn(fs: seq<Field>, key: string): Option<Json> {
    if |fs| == 0 then None else if fs[0].key == key then Some(fs[0].value) else GetIn(fs[1..], key)
  }

  /** The names of the members, in order. */
  function Names(j: Json): seq<string>
    requires j.Obj?
  {
    seq(|j.fields|, i requires 0 <= i < |j.fields| => j.fields[i].key)
  }

  // ------------------------------------------------------------------------
  // Reading back what was printed
  // ------------------------------------------------------------------------

  lemma ReadCharBack(c: char, r: string)
    ensures ReadChar(Escape(c) + r) == Some((c, r))
  {
    var e, w := Escape(c), Escape(c) + r;
    assert forall i :: 0 <= i < |e| ==> w[i] == e[i];
    assert w[|e|..] == r;
  }

  lemma EscapeAllHead(x: string, r: string)
    ensures var w := EscapeAll(x) + ([QUOTE] + r);
            && |w| > 0
            && (|x| == 0 ==> w[0] == QUOTE && w[1..] == r)
            && (|x| > 0 ==> w[0] != QUOTE && w == Escape(x[0]) + (EscapeAll(x[1..]) + ([QUOTE] + r)))
  {
    hide Escape;
  }

  lemma {:induction false} ReadCharsBack(x: string, r: string)
    ensures ReadChars(EscapeAll(x) + ([QUOTE] + r)) == Some((x, r))
    decreases |x|
  {
    hide Escape, EscapeAll, ReadChar;
    EscapeAllHead(x, r);
    if |x| > 0 {
      ReadCharBack(x[0], EscapeAll(x[1..]) + ([QUOTE] + r));
      ReadCharsBack(x[1..], r);
      assert x == [x[0]] + x[1..];
    }
  }

  lemma Unquoted(x: string, r: string)
    ensures (Quote(x) + r)[1..] == EscapeAll(x) + ([QUOTE] + r)
  {
    hide EscapeAll;
  }

  /** String literals are prefix-free. */
  lemma QuotePrefix(x: string, y: string, r: string, s: string)
    requires Quote(x) + r == Quote(y) + s
    ensures x == y && r == s
  {
    hide ReadChars, Quote, EscapeAll;
    Unquoted(x, r);
    Unquoted(y, s);
    ReadCharsBack(x, r);
    ReadCharsBack(y, s);
  }

  lemma ReadNumberBack(n: nat, r: string)
    requires EndsNumber(r)
    ensures IsDigit((Dec(n) + r)[0]) && ReadNumber(Dec(n) + r) == Some((Num(n), r))
  {
    var d := Dec(n);
    RunOfDigits(d, r);
    DecRoundTrip(n);
    DecLeads(n);
    assert (d + r)[..|d|] == d && (d + r)[|d|..] == r;
  }

  predicate Starts(j: Json, c: char) {
    match j
    case Num(_) => IsDigit(c)
    case Str(_) => c == QUOTE
    case Bool(b) => c == if b then 't' else 'f'
    case Arr(_) => c == '['
    case Obj(_) => c == '{'
  }

  lemma PrintStarts(j: Json)
    ensures Starts(j, Print(j)[0])
  {}

  // What comes first in a list that is followed by its closing bracket.

  lemma ItemsHead(xs: seq<Json>, r: string)
    ensures var w := Items(xs) + ([']'] + r);
            && |w| > 0
            && (|xs| == 0 ==> w[0] == ']' && w[1..] == r)
            && (|xs| > 0 ==> Starts(xs[0], w[0]) && w == Print(xs[0]) + (MoreItems(xs[1..]) + ([']'] + r)))
  {}

  lemma AfterComma(a: string, b: string, c: string)
    ensures ((([','] + a) + b) + c)[1..] == a + (b + c)
  {}

  lemma MoreItemsHead(xs: seq<Json>, r: string)
    ensures var w := MoreItems(xs) + ([']'] + r);
            && |w| > 0
            && (|xs| == 0 ==> w[0] == ']' && w[1..] == r)
            && (|xs| > 0 ==> w[0] == ',' && w[1..] == Print(xs[0]) + (MoreItems(xs[1..]) + ([']'] + r)))
  {
    hide Print;
    if |xs| > 0 {
      var p, m := Print(xs[0]), MoreItems(xs[1..]);
      assert MoreItems(xs) == [','] + p + m;
      hide MoreItems;
      AfterComma(p, m, [']'] + r);
    }
  }

  lemma MembersHead(fs: seq<Field>, r: string)
    ensures var w := Members(fs) + (['}'] + r);
            && |w| > 0
            && (|fs| == 0 ==> w[0] == '}' && w[1..] == r)
            && (|fs| > 0 ==> w[0] == QUOTE && w == Pair(fs[0]) + (MoreMembers(fs[1..]) + (['}'] + r)))
  {}

  lemma MoreMembersHead(fs: seq<Field>, r: string)
    ensures var w := MoreMembers(fs) + (['}'] + r);
            && |w| > 0
            && (|fs| == 0 ==> w[0] == '}' && w[1..] == r)
            && (|fs| > 0 ==> w[0] == ',' && w[1..] == Pair(fs[0]) + (MoreMembers(fs[1..]) + (['}'] + r)))
  {
    hide Pair;
    if |fs| > 0 {
      var p, m := Pair(fs[0]), MoreMembers(fs[1..]);
      assert MoreMembers(fs) == [','] + p + m;
      hide MoreMembers;
      AfterComma(p, m, ['}'] + r);
    }
  }

  /** Reading is the inverse of printing: wherever a number can end, the reader takes exactly
      the printed value off the text. */
  lemma {:induction false} ReadBack(j: Json, r: string)
    requires EndsNumber(r)
    ensures ReadValue(Print(j) + r) == Some((j, r))
    decreases j, 1
  {
    hide ReadChars, ReadNumber, ReadItems, ReadMembers;
    var w := Print(j) + r;
    PrintStarts(j);
    assert w[0] == Print(j)[0];
    match j {
      case Num(n) => ReadNumberBack(n, r);
      case Str(x) =>
        assert w[1..] == EscapeAll(x) + ([QUOTE] + r);
        ReadCharsBack(x, r);
      case Bool(b) =>
        var text := Print(j);
        assert text <= w && w[|text|..] == r;
        assert b ==> w[0] == 't';
        assert !b ==> w[0] == 'f' && !("true" <= w);
      case Arr(xs) =>
        Opened('[', Items(xs), [']'], r);
        ReadItemsBack(xs, r);
        assert !("true" <= w) && !("false" <= w);
      case Obj(fs) =>
        Opened('{', Members(fs), ['}'], r);
        ReadMembersBack(fs, r);
        assert !("true" <= w) && !("false" <= w);
    }
  }

  lemma Opened(open: char, body: string, close: string, r: string)
    ensures (([open] + body + close) + r)[1..] == body + (close + r)
  {}

  lemma {:induction false} ReadItemsBack(xs: seq<Json>, r: string)
    ensures ReadItems(Items(xs) + ([']'] + r)) == Some((xs, r))
    decreases xs, 0
  {
    hide Print, Items, MoreItems, ReadValue, ReadMoreItems;
    ItemsHead(xs, r);
    if |xs| > 0 {
      MoreItemsHead(xs[1..], r);
      ReadBack(xs[0], MoreItems(xs[1..]) + ([']'] + r));
      ReadMoreItemsBack(xs[1..], r);
      assert xs == [xs[0]] + xs[1..];
    }
  }

  lemma {:induction false} ReadMoreItemsBack(xs: seq<Json>, r: string)
    ensures ReadMoreItems(MoreItems(xs) + ([']'] + r)) == Some((xs, r))
    decreases xs, 0
  {
    hide Print, MoreItems, ReadValue;
    MoreItemsHead(xs, r);
    if |xs| > 0 {
      MoreItemsHead(xs[1..], r);
      ReadBack(xs[0], MoreItems(xs[1..]) + ([']'] + r));
      ReadMoreItemsBack(xs[1..], r);
      assert xs == [xs[0]] + xs[1..];
    }
  }

  lemma {:induction false} ReadMemberBack(f: Field, u: string)
    requires EndsNumber(u)
    ensures ReadMember(Pair(f) + u) == Some((f, u))
    decreases f, 2
  {
    hide Print, ReadChars, ReadValue;
    PairText(f.key, Print(f.value), u);
    ReadCharsBack(f.key, [':'] + (Print(f.value) + u));
    assert ([':'] + (Print(f.value) + u))[1..] == Print(f.value) + u;
    ReadBack(f.value, u);
  }

  lemma PairText(key: string, p: string, u: string)
    ensures var w := (Quote(key) + [':'] + p) + u;
            w[0] == QUOTE && w[1..] == EscapeAll(key) + ([QUOTE] + ([':'] + (p + u)))
  {}

  lemma {:induction false} ReadMembersBack(fs: seq<Field>, r: string)
    ensures ReadMembers(Members(fs) + (['}'] + r)) == Some((fs, r))
    decreases fs, 0
  {
    hide Pair, Members, MoreMembers, ReadMember, ReadMoreMembers;
    MembersHead(fs, r);
    if |fs| > 0 {
      MoreMembersHead(fs[1..], r);
      ReadMemberBack(fs[0], MoreMembers(fs[1..]) + (['}'] + r));
      ReadMoreMembersBack(fs[1..], r);
      assert fs == [fs[0]] + fs[1..];
    }
  }

  lemma {:induction false} ReadMoreMembersBack(fs: seq<Field>, r: string)
    ensures ReadMoreMembers(MoreMembers(fs) + (['}'] + r)) == Some((fs, r))
    decreases fs, 0
  {
    hide Pair, MoreMembers, ReadMember;
    MoreMembersHead(fs, r);
    if |fs| > 0 {
      MoreMembersHead(fs[1..], r);
      ReadMemberBack(fs[0], MoreMembers(fs[1..]) + (['}'] + r));
      ReadMoreMembersBack(fs[1..], r);
      assert fs == [fs[0]] + fs[1..];
    }
  }

  /** The text of a value reads back as that value. */
  lemma ReadPrint(j: Json)
    ensures Read(Print(j)) == Some(j)
  {
    hide Print, ReadValue;
    ReadBack(j, "");
    assert Print(j) + "" == Print(j);
  }

  /** Unambiguity: in any context where a number can end, equal texts come from equal values
      and leave equal remainders. */
  lemma PrintPrefix(a: Json, b: Json, r: string, s: string)
    requires EndsNumber(r) && EndsNumber(s) && Print(a) + r == Print(b) + s
    ensures a == b && r == s
  {
    hide Print, ReadValue;
    ReadBack(a, r);
    ReadBack(b, s);
  }

  /** Equal texts, equal values. */
  lemma PrintInjective(a: Json, b: Json)
    requires Print(a) == Print(b)
    ensures a == b
  {
    assert Print(a) + [] == Print(b) + [];
    PrintPrefix(a, b, [], []);
  }

  /** The form each character takes, as `JSON.stringify` prints it: itself, a two-character
      escape where there is one, or six characters with lowercase digits. */
  lemma EscapeForms(c: char)
    ensures |Escape(c)| == 1 <==> PlainChar(c)
    ensures |Escape(c)| == 2 <==> c in {'\"', '\\', 8 as char, 9 as char, 10 as char, 12 as char, 13 as char}
    ensures |Escape(c)| > 2 ==> |Escape(c)| == 6 && Escape(c)[..4] == "\\u00"
    ensures forall i :: 0 <= i < |Escape(c)| && |Escape(c)| == 6 ==> !('A' <= Escape(c)[i] <= 'Z')
  {}

  // ------------------------------------------------------------------------
  // Appending, as the encoders do
  // ------------------------------------------------------------------------

  function Comma(n: nat): string { if n == 0 then [] else [','] }

  lemma {:induction false} MoreItemsAppend(xs: seq<Json>, x: Json)
    ensures MoreItems(xs + [x]) == MoreItems(xs) + [','] + Print(x)
    decreases |xs|
  {
    hide Print;
    if |xs| == 0 {
      assert xs + [x] == [x] && [x][1..] == [];
    } else {
      MoreItemsAppend(xs[1..], x);
      assert (xs + [x])[1..] == xs[1..] + [x];
    }
  }

  lemma Appended(p: string, m: string, one: string)
    ensures p + (m + [','] + one) == (p + m) + [','] + one
  {}

  lemma ItemsCons(xs: seq<Json>)
    requires |xs| > 0
    ensures Items(xs) == Print(xs[0]) + MoreItems(xs[1..])
  {}

  lemma ItemsAppend(xs: seq<Json>, x: Json)
    ensures Items(xs + [x]) == Items(xs) + Comma(|xs|) + Print(x)
  {
    assert MoreItems([]) == [] && Items([]) == [];
    hide Print, Items, MoreItems;
    ItemsCons(xs + [x]);
    if |xs| == 0 {
      assert xs + [x] == [x] && [x][1..] == [] && xs == [];
      FirstOne(Print(x));
    } else {
      ItemsCons(xs);
      MoreItemsAppend(xs[1..], x);
      assert (xs + [x])[1..] == xs[1..] + [x] && (xs + [x])[0] == xs[0];
      Appended(Print(xs[0]), MoreItems(xs[1..]), Print(x));
    }
  }

  lemma FirstOne(one: string)
    ensures one + [] == [] + [] + one
  {}

  lemma {:induction false} MoreMembersAppend(fs: seq<Field>, f: Field)
    ensures MoreMembers(fs + [f]) == MoreMembers(fs) + [','] + Pair(f)
    decreases |fs|
  {
    hide Pair;
    if |fs| == 0 {
      assert fs + [f] == [f] && [f][1..] == [];
    } else {
      MoreMembersAppend(fs[1..], f);
      assert (fs + [f])[1..] == fs[1..] + [f];
    }
  }

  lemma MembersCons(fs: seq<Field>)
    requires |fs| > 0
    ensures Members(fs) == Pair(fs[0]) + MoreMembers(fs[1..])
  {}

  lemma MembersAppend(fs: seq<Field>, f: Field)
    ensures Members(fs + [f]) == Members(fs) + Comma(|fs|) + Pair(f)
  {
    assert MoreMembers([]) == [] && Members([]) == [];
    hide Pair, Members, MoreMembers;
    MembersCons(fs + [f]);
    if |fs| == 0 {
      assert fs + [f] == [f] && [f][1..] == [] && fs == [];
      FirstOne(Pair(f));
    } else {
      MembersCons(fs);
      MoreMembersAppend(fs[1..], f);
      assert (fs + [f])[1..] == fs[1..] + [f] && (fs + [f])[0] == fs[0];
      Appended(Pair(fs[0]), MoreMembers(fs[1..]), Pair(f));
    }
  }

  /** `push_json_string`: the literal appended to `out`, character by character. */
  method PushString(out: string, s: string) returns (r: string)
    ensures r == out + Quote(s)
  {
    r := out + [QUOTE];
    for i := 0 to |s|
      invariant r + EscapeAll(s[i..]) == out + [QUOTE] + EscapeAll(s)
    {
      assert s[i..][0] == s[i] && s[i..][1..] == s[i + 1..];
      assert (r + Escape(s[i])) + EscapeAll(s[i + 1..]) == r + EscapeAll(s[i..]);
      r := r + Escape(s[i]);
    }
    assert s[|s|..] == [] && r + [] == r;
    r := r + [QUOTE];
  }
}
