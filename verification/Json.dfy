/** Compact JSON for the two fixed shapes that are encoded: a flat array and a flat object
    whose values are plain strings and integers. */
module Json {
  import opened Common
  import opened Text
  import opened Base64Url

  datatype Value = Str(text: string) | Num(number: int)

  /** An array element has no key; an object member has one. */
  datatype Item = Item(key: Option<string>, value: Value)

  /** Characters that JSON writes as themselves. */
  predicate PlainChar(c: char) { ' ' <= c <= '~' && c != '"' && c != '\\' }

  predicate Plain(s: string) { forall i | 0 <= i < |s| :: PlainChar(s[i]) }

  predicate PlainItem(x: Item) {
    (x.key.Some? ==> Plain(x.key.value)) && (x.value.Str? ==> Plain(x.value.text))
  }

  function Quote(s: string): string { "\"" + s + "\"" }

  function PrintInt(n: int): string { if n < 0 then "-" + Decimal(-n) else Decimal(n) }

  function PrintValue(v: Value): string {
    match v case Str(s) => Quote(s) case Num(n) => PrintInt(n)
  }

  function PrintItem(x: Item): string {
    if x.key.Some? then Quote(x.key.value) + ":" + PrintValue(x.value) else PrintValue(x.value)
  }

  /** The items separated by commas, then the closing bracket. */
  function PrintItems(xs: seq<Item>, close: char): string
    requires xs != []
  {
    if |xs| == 1 then PrintItem(xs[0]) + [close] else PrintItem(xs[0]) + "," + PrintItems(xs[1..], close)
  }

  function ItemTexts(xs: seq<Item>): seq<string> { seq(|xs|, i requires 0 <= i < |xs| => PrintItem(xs[i])) }

  /** What is printed: the items with commas between them, then the bracket. */
  lemma {:induction false} PrintedText(xs: seq<Item>, close: char)
    requires xs != []
    ensures PrintItems(xs, close) == JoinWith(ItemTexts(xs), ',') + [close]
  {
    hide PrintItem;
    if |xs| > 1 {
      PrintedText(xs[1..], close);
      assert ItemTexts(xs)[1..] == ItemTexts(xs[1..]);
    }
  }

  /** Texts and keys are in quotes, with a colon after a key. */
  lemma PrintedItem(key: string, text: string, n: int)
    ensures PrintItem(Item(Some(key), Str(text))) == "\"" + key + "\":\"" + text + "\""
    ensures PrintItem(Item(Some(key), Num(n))) == "\"" + key + "\":" + PrintInt(n)
    ensures PrintItem(Item(None, Str(text))) == "\"" + text + "\"" && PrintItem(Item(None, Num(n))) == PrintInt(n)
  {
    hide PrintInt;
  }

  /** The longest prefix of plain characters. */
  function PlainSpan(s: string): (k: nat)
    ensures k <= |s| && Plain(s[..k]) && (k < |s| ==> !PlainChar(s[k]))
  {
    if s == "" || !PlainChar(s[0]) then 0 else 1 + PlainSpan(s[1..])
  }

  function DigitSpan(s: string): (k: nat)
    ensures k <= |s| && AllDigits(s[..k]) && (k < |s| ==> !IsDigit(s[k]))
  {
    if s == "" || !IsDigit(s[0]) then 0 else 1 + DigitSpan(s[1..])
  }

  function ReadString(s: string): Option<(string, string)> {
    if s == "" || s[0] != '"' then None
    else
      var k := PlainSpan(s[1..]);
      if k + 1 < |s| && s[k + 1] == '"' then Some((s[1..k + 1], s[k + 2..])) else None
  }

  /** Digits without a superfluous leading zero. */
  function ReadNat(s: string): Option<(nat, string)> {
    var k := DigitSpan(s);
    if k == 0 || (k > 1 && s[0] == '0') then None else Some((NatOf(s[..k]), s[k..]))
  }

  function ReadValue(s: string): Option<(Value, string)> {
    if s != "" && s[0] == '"' then
      match ReadString(s) case None => None case Some((t, rest)) => Some((Str(t), rest))
    else if s != "" && s[0] == '-' then
      match ReadNat(s[1..]) case None => None case Some((n, rest)) => Some((Num(0 - n as int), rest))
    else
      match ReadNat(s) case None => None case Some((n, rest)) => Some((Num(n), rest))
  }

  function ReadItem(s: string, keyed: bool): Option<(Item, string)> {
    if !keyed then
      match ReadValue(s) case None => None case Some((v, rest)) => Some((Item(None, v), rest))
    else
      match ReadString(s)
      case None => None
      case Some((key, rest)) =>
        if rest == "" || rest[0] != ':' then None
        else match ReadValue(rest[1..]) case None => None case Some((v, tail)) => Some((Item(Some(key), v), tail))
  }

  function ReadItems(s: string, keyed: bool, close: char): Option<seq<Item>>
    decreases |s|
  {
    match ReadItem(s, keyed)
    case None => None
    case Some((x, rest)) =>
      if rest == [close] then Some([x])
      else if rest != "" && rest[0] == ',' && |rest| <= |s| then
        match ReadItems(rest[1..], keyed, close) case None => None case Some(xs) => Some([x] + xs)
      else None
  }

  lemma PlainSpanOf(s: string, rest: string)
    requires Plain(s) && (rest == "" || !PlainChar(rest[0]))
    ensures PlainSpan(s + rest) == |s|
  {
    var t := s + rest;
    var k := PlainSpan(t);
    assert forall i | 0 <= i < |s| :: t[i] == s[i];
    assert forall i | 0 <= i < k :: t[..k][i] == t[i];
    assert rest != "" ==> t[|s|] == rest[0];
  }

  lemma DigitSpanOf(s: string, rest: string)
    requires AllDigits(s) && (rest == "" || !IsDigit(rest[0]))
    ensures DigitSpan(s + rest) == |s|
  {
    var t := s + rest;
    var k := DigitSpan(t);
    assert forall i | 0 <= i < |s| :: t[i] == s[i];
    assert forall i | 0 <= i < k :: t[..k][i] == t[i];
    assert rest != "" ==> t[|s|] == rest[0];
  }

  lemma {:induction false} DecimalOfDigits(s: string)
    requires AllDigits(s) && s != "" && (|s| == 1 || s[0] != '0')
    ensures Decimal(NatOf(s)) == s && (s[0] != '0' ==> NatOf(s) > 0)
  {
    var front, last := s[..|s| - 1], s[|s| - 1];
    assert s == front + [last] && IsDigit(last);
    if front == "" {
      assert NatOf(front) == 0;
    } else {
      assert front[0] == s[0];
      DecimalOfDigits(front);
      assert NatOf(s) / 10 == NatOf(front) && NatOf(s) % 10 == last as int - '0' as int;
    }
  }

  /** A number is read exactly where its numeral stands, and not into the middle of a longer one. */
  lemma ReadNatIff(s: string, n: nat, rest: string)
    ensures ReadNat(s) == Some((n, rest)) <==> s == Decimal(n) + rest && (rest == "" || !IsDigit(rest[0]))
  {
    hide DigitSpan, Decimal, NatOf;
    if ReadNat(s) == Some((n, rest)) {
      var k := DigitSpan(s);
      DecimalOfDigits(s[..k]);
      assert s == s[..k] + rest;
    }
    if s == Decimal(n) + rest && (rest == "" || !IsDigit(rest[0])) { ReadDecimal(n, rest); }
  }

  lemma ReadQuoted(s: string, rest: string)
    requires Plain(s)
    ensures ReadString(Quote(s) + rest) == Some((s, rest))
  {
    hide PlainSpan;
    var q := "\"" + rest;
    PlainSpanOf(s, q);
    var t := Quote(s) + rest;
    assert t[1..] == s + q;
    assert t[1..|s| + 1] == s && t[|s| + 1] == '"' && t[|s| + 2..] == rest;
  }

  lemma {:induction false} NoLeadingZero(n: nat)
    ensures n > 0 ==> Decimal(n)[0] != '0'
    ensures n < 10 <==> |Decimal(n)| == 1
  {
    if n >= 10 { NoLeadingZero(n / 10); }
  }

  lemma ReadDecimal(n: nat, rest: string)
    requires rest == "" || !IsDigit(rest[0])
    ensures ReadNat(Decimal(n) + rest) == Some((n, rest))
  {
    hide DigitSpan, Decimal, NatOf;
    var d := Decimal(n);
    DigitSpanOf(d, rest);
    NoLeadingZero(n);
    DecimalRoundTrip(n);
    assert (d + rest)[..|d|] == d && (d + rest)[|d|..] == rest;
  }

  lemma ReadPrintedValue(v: Value, rest: string)
    requires (v.Str? ==> Plain(v.text)) && (rest == "" || !IsDigit(rest[0]))
    ensures ReadValue(PrintValue(v) + rest) == Some((v, rest))
  {
    hide Decimal, ReadNat, ReadString;
    match v
    case Str(s) => ReadQuoted(s, rest);
    case Num(n) =>
      var d := Decimal(if n < 0 then -n else n);
      ReadDecimal(if n < 0 then -n else n, rest);
      assert IsDigit(d[0]);
      if n < 0 { assert (PrintInt(n) + rest)[1..] == d + rest; }
  }

  lemma ReadPrintedItem(x: Item, rest: string)
    requires PlainItem(x) && (rest == "" || !IsDigit(rest[0]))
    ensures ReadItem(PrintItem(x) + rest, x.key.Some?) == Some((x, rest))
  {
    hide ReadValue, PrintValue, ReadString, Quote;
    ReadPrintedValue(x.value, rest);
    if x.key.Some? {
      var v := PrintValue(x.value) + rest;
      ReadQuoted(x.key.value, ":" + v);
      assert PrintItem(x) + rest == Quote(x.key.value) + (":" + v);
      assert (":" + v)[1..] == v;
    }
  }

  ghost predicate PlainItems(xs: seq<Item>, keyed: bool) {
    forall i | 0 <= i < |xs| :: PlainItem(xs[i]) && xs[i].key.Some? == keyed
  }

  /** Reading back what was printed gives the items again. */
  lemma {:induction false} ReadPrintedItems(xs: seq<Item>, keyed: bool, close: char)
    requires xs != [] && PlainItems(xs, keyed) && close != ',' && !IsDigit(close)
    ensures ReadItems(PrintItems(xs, close), keyed, close) == Some(xs)
    decreases |xs|
  {
    hide PrintItem, ReadItem, ReadItems;
    var x := xs[0];
    if |xs| == 1 {
      ReadPrintedItem(x, [close]);
      ReadLast(PrintItem(x) + [close], x, keyed, close);
      assert xs == [x];
    } else {
      var more := PrintItems(xs[1..], close);
      ReadPrintedItem(x, "," + more);
      ReadPrintedItems(xs[1..], keyed, close);
      assert PrintItems(xs, close) == PrintItem(x) + ("," + more);
      hide PrintItems;
      ReadNext(PrintItem(x) + ("," + more), x, more, xs[1..], keyed, close);
      assert xs == [x] + xs[1..];
    }
  }

  lemma ReadLast(s: string, x: Item, keyed: bool, close: char)
    requires ReadItem(s, keyed) == Some((x, [close]))
    ensures ReadItems(s, keyed, close) == Some([x])
  {
    hide ReadItem;
  }

  lemma ReadNext(s: string, x: Item, more: string, xs: seq<Item>, keyed: bool, close: char)
    requires ReadItem(s, keyed) == Some((x, "," + more)) && |more| < |s| && close != ','
    requires ReadItems(more, keyed, close) == Some(xs)
    ensures ReadItems(s, keyed, close) == Some([x] + xs)
  {
    hide ReadItem;
    assert ("," + more)[1..] == more && ("," + more)[0] == ',';
  }

  // ---------------------------------------------------------------------------
  // ASCII text as bytes

  predicate IsAscii(s: string) { forall i | 0 <= i < |s| :: s[i] < 128 as char }

  function Bytes(s: string): (b: seq<Byte>)
    requires IsAscii(s)
    ensures |b| == |s|
  {
    seq(|s|, i requires 0 <= i < |s| => s[i] as int as Byte)
  }

  function TextOf(b: seq<Byte>): Option<string> {
    if exists i | 0 <= i < |b| :: b[i] >= 128 then None
    else Some(seq(|b|, i requires 0 <= i < |b| => (if b[i] < 128 then b[i] as char else ' ')))
  }

  lemma TextRoundTrip(s: string)
    requires IsAscii(s)
    ensures TextOf(Bytes(s)) == Some(s)
  {
    var b := Bytes(s);
    assert forall i | 0 <= i < |b| :: b[i] == s[i] as int && b[i] < 128;
    assert TextOf(b).value == s;
  }

  lemma DigitsArePlain(s: string)
    requires AllDigits(s)
    ensures Plain(s)
  {
    assert forall i | 0 <= i < |s| :: IsDigit(s[i]) ==> PlainChar(s[i]);
  }

  lemma PrintedIsAscii(x: Item)
    requires PlainItem(x)
    ensures IsAscii(PrintItem(x))
  {
    hide Decimal;
    if x.value.Num? { DigitsArePlain(Decimal(if x.value.number < 0 then -x.value.number else x.value.number)); }
  }

  lemma {:induction false} ItemsAreAscii(xs: seq<Item>, keyed: bool, close: char)
    requires xs != [] && PlainItems(xs, keyed) && close < 128 as char
    ensures IsAscii(PrintItems(xs, close))
    decreases |xs|
  {
    hide PrintItem;
    PrintedIsAscii(xs[0]);
    if |xs| > 1 { ItemsAreAscii(xs[1..], keyed, close); }
  }
}
