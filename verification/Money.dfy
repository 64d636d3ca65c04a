/** The money parser of the trade-list importer, against the printers whose output it is meant to read. */
module Money {
  import opened Common

  /** A finite decimal: mantissa / 10^scale. */
  datatype Decimal = Decimal(mantissa: int, scale: nat)

  predicate IsSpace(c: char) {
    || '\t' <= c <= '\r' || '\U{1C}' <= c <= ' ' || c == '\U{85}' || c == '\U{A0}' || c == '\U{1680}'
    || '\U{2000}' <= c <= '\U{200A}' || c == '\U{2028}' || c == '\U{2029}' || c == '\U{202F}' || c == '\U{205F}'
    || c == '\U{3000}'
  }

  predicate IsCurrency(c: char) { c in {'$', '\U{20AC}', '\U{A3}', '\U{A5}', '\U{20BD}'} }

  predicate Noise(c: char) { IsCurrency(c) || IsSpace(c) }

  predicate IsPoint(c: char) { c == '.' }

  predicate IsClosing(c: char) { c == ')' }

  predicate IsDigit(c: char) { '0' <= c <= '9' }

  function StripLeft(s: string): string {
    if s != "" && IsSpace(s[0]) then StripLeft(s[1..]) else s
  }

  function StripRight(s: string): string {
    if s != "" && IsSpace(s[|s| - 1]) then StripRight(s[..|s| - 1]) else s
  }

  function Strip(s: string): string { StripRight(StripLeft(s)) }

  /** Drop every character in the given class. */
  function Without(s: string, dropped: char -> bool): string {
    if s == "" then ""
    else if dropped(s[0]) then Without(s[1..], dropped)
    else [s[0]] + Without(s[1..], dropped)
  }

  function Replace(s: string, from: char, to: char): (r: string)
    ensures |r| == |s|
    ensures forall i :: 0 <= i < |s| ==> r[i] == if s[i] == from then to else s[i]
  {
    if s == "" then "" else [if s[0] == from then to else s[0]] + Replace(s[1..], from, to)
  }

  /** Pieces between occurrences of `sep`; always at least one. */
  function Split(s: string, sep: char): (parts: seq<string>)
    ensures parts != []
  {
    if s == "" then [""]
    else
      var rest := Split(s[1..], sep);
      if s[0] == sep then [""] + rest else [[s[0]] + rest[0]] + rest[1..]
  }

  function Concat(parts: seq<string>): string {
    if parts == [] then "" else parts[0] + Concat(parts[1..])
  }

  function KeepLastPoint(s: string): string {
    var parts := Split(s, '.');
    if |parts| > 2 then Concat(parts[..|parts| - 1]) + "." + parts[|parts| - 1] else s
  }

  predicate AllDigits(s: string) { forall i :: 0 <= i < |s| ==> IsDigit(s[i]) }

  function DigitsValue(s: string): int
    requires AllDigits(s)
  {
    if s == "" then 0 else DigitsValue(s[..|s| - 1]) * 10 + (s[|s| - 1] as int - '0' as int)
  }

  /** The plain decimal literals: digits with at most one point among them. */
  function ParseUnsigned(s: string): Option<Decimal> {
    var parts := Split(s, '.');
    if |parts| > 2 then None
    else
      var digits := Concat(parts);
      if digits == "" || !AllDigits(digits) then None
      else Some(Decimal(DigitsValue(digits), if |parts| == 2 then |parts[1]| else 0))
  }

  function ParseFloat(s: string): Option<Decimal> {
    if s != "" && s[0] == '-' then
      match ParseUnsigned(s[1..])
      case None => None
      case Some(d) => Some(Decimal(-d.mantissa, d.scale))
    else if s != "" && s[0] == '+' then ParseUnsigned(s[1..])
    else ParseUnsigned(s)
  }

  /** The last two steps: parentheses to a sign, then the float parser. */
  function Finish(s: string): Option<Decimal> {
    ParseFloat(Without(Replace(s, '(', '-'), IsClosing))
  }

  function ParseMoney(val: Option<string>): Option<Decimal> {
    if val.None? then None
    else
      var s := Strip(val.value);
      if s in ["", "-", "\U{2014}", "N/A"] then None
      else
        var bare := Without(s, Noise);
        var pointed := KeepLastPoint(Replace(bare, ',', '.'));
        Finish(pointed)
  }

  // ---- The printers ----

  function Pow10(k: nat): (p: int)
    ensures p >= 1
  {
    if k == 0 then 1 else 10 * Pow10(k - 1)
  }

  function DigitChar(d: int): (c: char)
    requires 0 <= d < 10
    ensures IsDigit(c) && c as int == '0' as int + d
  {
    '0' + d as char
  }

  function Digits(n: nat): string {
    if n < 10 then [DigitChar(n)] else Digits(n / 10) + [DigitChar(n % 10)]
  }

  /** The last `width` digits of `n`, with leading zeros. */
  function Pad(n: nat, width: nat): string {
    if width == 0 then "" else Pad(n / 10, width - 1) + [DigitChar(n % 10)]
  }

  function Grouped(n: nat, separator: string): string {
    if n < 1000 then Digits(n) else Grouped(n / 1000, separator) + separator + Pad(n % 1000, 3)
  }

  datatype Negative = LeadingMinus | Parentheses

  /** How an amount is written: `before` the sign, `lead` and `trail` around the number, `after` the closing
      parenthesis (currency signs and blanks), the thousands separator (possibly empty), the decimal point and the
      form of a negative. */
  datatype Style = Style(before: string, lead: string, trail: string, after: string, thousands: string, point: char,
                         negative: Negative)

  predicate Ornament(s: string) { forall i :: 0 <= i < |s| ==> Noise(s[i]) }

  predicate ValidStyle(st: Style) {
    && Ornament(st.before) && Ornament(st.lead) && Ornament(st.trail) && Ornament(st.after)
    && st.point in {',', '.'}
    && (st.thousands in ["", ",", "."] || (|st.thousands| == 1 && IsSpace(st.thousands[0])))
  }

  function Abs(u: int): nat { if u < 0 then -u else u }

  function Quotient(n: nat, d: int): nat
    requires d >= 1
  {
    n / d
  }

  function Remainder(n: nat, d: int): (r: nat)
    requires d >= 1
    ensures r < d
  {
    n % d
  }

  function Body(u: int, decimals: nat, st: Style): string {
    Grouped(Quotient(Abs(u), Pow10(decimals)), st.thousands)
    + if decimals == 0 then "" else [st.point] + Pad(Remainder(Abs(u), Pow10(decimals)), decimals)
  }

  function Signed(u: int, decimals: nat, st: Style): string {
    var inner := st.lead + Body(u, decimals, st) + st.trail;
    st.before + if u >= 0 then inner else if st.negative.LeadingMinus? then "-" + inner else "(" + inner + ")"
  }

  /** The amount u / 10^decimals, printed with that many decimals. */
  function Print(u: int, decimals: nat, st: Style): string { Signed(u, decimals, st) + st.after }

  // ---- String lemmas ----

  lemma {:induction false} WithoutConcat(a: string, b: string, dropped: char -> bool)
    ensures Without(a + b, dropped) == Without(a, dropped) + Without(b, dropped)
  {
    if a == "" {
      assert a + b == b;
    } else {
      WithoutConcat(a[1..], b, dropped);
      var s := a + b;
      assert s[0] == a[0] && s[1..] == a[1..] + b;
      if !dropped(a[0]) {
        assert Without(s, dropped) == [a[0]] + (Without(a[1..], dropped) + Without(b, dropped));
      }
    }
  }

  lemma {:induction false} WithoutAll(s: string, dropped: char -> bool)
    requires forall i :: 0 <= i < |s| ==> dropped(s[i])
    ensures Without(s, dropped) == ""
  {
    if s != "" { WithoutAll(s[1..], dropped); }
  }

  lemma {:induction false} WithoutNone(s: string, dropped: char -> bool)
    requires forall i :: 0 <= i < |s| ==> !dropped(s[i])
    ensures Without(s, dropped) == s
  {
    if s != "" { WithoutNone(s[1..], dropped); }
  }

  lemma {:induction false} WithoutStrip(s: string, dropped: char -> bool)
    requires forall c :: IsSpace(c) ==> dropped(c)
    ensures Without(Strip(s), dropped) == Without(s, dropped)
  {
    WithoutStripLeft(s, dropped);
    WithoutStripRight(StripLeft(s), dropped);
  }

  lemma {:induction false} WithoutStripLeft(s: string, dropped: char -> bool)
    requires forall c :: IsSpace(c) ==> dropped(c)
    ensures Without(StripLeft(s), dropped) == Without(s, dropped)
  {
    if s != "" && IsSpace(s[0]) { WithoutStripLeft(s[1..], dropped); }
  }

  lemma {:induction false} WithoutStripRight(s: string, dropped: char -> bool)
    requires forall c :: IsSpace(c) ==> dropped(c)
    ensures Without(StripRight(s), dropped) == Without(s, dropped)
  {
    if s != "" && IsSpace(s[|s| - 1]) {
      WithoutStripRight(s[..|s| - 1], dropped);
      WithoutConcat(s[..|s| - 1], [s[|s| - 1]], dropped);
      assert s == s[..|s| - 1] + [s[|s| - 1]];
    }
  }

  lemma {:induction false} SplitNone(s: string, sep: char)
    requires sep !in s
    ensures Split(s, sep) == [s]
  {
    if s != "" {
      SplitNone(s[1..], sep);
      assert [s[0]] + s[1..] == s;
    }
  }

  /** Splitting a text whose tail has no separator: the tail is the last piece. */
  lemma {:induction false} SplitLast(a: string, sep: char, b: string)
    requires sep !in b
    ensures Split(a + [sep] + b, sep) == Split(a, sep) + [b]
  {
    if a == "" {
      assert a + [sep] + b == [sep] + b;
      SplitNone(b, sep);
    } else {
      SplitLast(a[1..], sep, b);
      assert (a + [sep] + b)[1..] == a[1..] + [sep] + b;
    }
  }

  lemma {:induction false} ConcatSplit(s: string)
    ensures Concat(Split(s, '.')) == Without(s, IsPoint)
  {
    if s != "" { ConcatSplit(s[1..]); }
  }

  /** Of several points only the last survives. */
  lemma KeepsLastPoint(a: string, b: string)
    requires '.' !in b
    ensures KeepLastPoint(a + "." + b) == Without(a, IsPoint) + "." + b
  {
    SplitLast(a, '.', b);
    ConcatSplit(a);
    var parts := Split(a, '.');
    assert (parts + [b])[..|parts|] == parts;
    if |parts| == 1 {
      SplitSingle(a, '.');
      WithoutNone(a, IsPoint);
    }
  }

  lemma {:induction false} SplitSingle(s: string, sep: char)
    requires |Split(s, sep)| == 1
    ensures sep !in s
  {
    if s != "" { SplitSingle(s[1..], sep); }
  }

  // ---- Digits ----

  lemma {:induction false} DigitsOnly(n: nat)
    ensures AllDigits(Digits(n)) && Digits(n) != "" && DigitsValue(Digits(n)) == n
  {
    if n >= 10 {
      DigitsOnly(n / 10);
      var init := Digits(n / 10);
      assert (init + [DigitChar(n % 10)])[..|init|] == init;
    } else {
      assert Digits(n)[..0] == "";
    }
  }

  lemma {:induction false} PadValue(a: string, n: nat, width: nat)
    requires AllDigits(a) && n < Pow10(width)
    ensures AllDigits(a + Pad(n, width)) && AllDigits(Pad(n, width)) && |Pad(n, width)| == width
    ensures DigitsValue(a + Pad(n, width)) == DigitsValue(a) * Pow10(width) + n
  {
    if width == 0 {
      assert a + Pad(n, width) == a;
    } else {
      PadValue(a, n / 10, width - 1);
      var init := a + Pad(n / 10, width - 1);
      assert a + Pad(n, width) == init + [DigitChar(n % 10)];
      assert (init + [DigitChar(n % 10)])[..|init|] == init;
      Shift(DigitsValue(a), Pow10(width - 1), n);
    }
  }

  lemma Shift(v: int, p: int, n: nat)
    ensures (v * p + n / 10) * 10 + n % 10 == v * (10 * p) + n
  {
  }

  lemma LastThreeDigits(n: nat)
    ensures var m := n % 1000;
            && n / 10 / 10 / 10 == n / 1000
            && n / 10 / 10 % 10 == m / 10 / 10 % 10 && n / 10 % 10 == m / 10 % 10 && n % 10 == m % 10
  {
  }

  lemma PadThreeShape(m: nat)
    ensures Pad(m, 3) == [DigitChar(m / 10 / 10 % 10)] + [DigitChar(m / 10 % 10)] + [DigitChar(m % 10)]
  {
    assert Pad(m, 3) == Pad(m / 10, 2) + [DigitChar(m % 10)];
    assert Pad(m / 10, 2) == Pad(m / 10 / 10, 1) + [DigitChar(m / 10 % 10)];
    assert Pad(m / 10 / 10, 1) == Pad(m / 10 / 10 / 10, 0) + [DigitChar(m / 10 / 10 % 10)];
    assert Pad(m / 10 / 10 / 10, 0) == "";
  }

  lemma DigitsSplit(n: nat)
    requires n >= 1000
    ensures Digits(n) == Digits(n / 1000) + Pad(n % 1000, 3)
  {
    LastThreeDigits(n);
    PadThreeShape(n % 1000);
    var a, b, c := DigitChar(n / 10 / 10 % 10), DigitChar(n / 10 % 10), DigitChar(n % 10);
    assert Digits(n) == Digits(n / 10) + [c];
    assert Digits(n / 10) == Digits(n / 10 / 10) + [b];
    assert Digits(n / 10 / 10) == Digits(n / 10 / 10 / 10) + [a];
    AppendThree(Digits(n / 1000), a, b, c);
  }

  lemma AppendThree(s: string, a: char, b: char, c: char)
    ensures s + [a] + [b] + [c] == s + ([a] + [b] + [c])
  {
  }

  /** Grouping with a separator a filter removes, or with none, leaves the bare digits. */
  lemma {:induction false} UngroupDigits(n: nat, separator: string, dropped: char -> bool)
    requires forall i :: 0 <= i < |separator| ==> dropped(separator[i])
    requires forall c :: IsDigit(c) ==> !dropped(c)
    ensures Without(Grouped(n, separator), dropped) == Digits(n)
  {
    if n < 1000 {
      DigitsOnly(n);
      WithoutNone(Digits(n), dropped);
    } else {
      var g, p := Grouped(n / 1000, separator), Pad(n % 1000, 3);
      UngroupDigits(n / 1000, separator, dropped);
      WithoutConcat(g + separator, p, dropped);
      WithoutConcat(g, separator, dropped);
      WithoutAll(separator, dropped);
      PadThree(n % 1000);
      WithoutNone(p, dropped);
      DigitsSplit(n);
    }
  }

  lemma PadThree(m: nat)
    requires m < 1000
    ensures AllDigits(Pad(m, 3)) && |Pad(m, 3)| == 3
  {
    assert Pow10(3) == 10 * Pow10(2) == 100 * Pow10(1) == 1000;
    PadValue("", m, 3);
    assert "" + Pad(m, 3) == Pad(m, 3);
  }

  // ---- Parsing what was printed ----

  /** Noise dropped and commas turned into points, in one pass. */
  function Clean(s: string): string {
    if s == "" then ""
    else if Noise(s[0]) then Clean(s[1..])
    else [if s[0] == ',' then '.' else s[0]] + Clean(s[1..])
  }

  lemma {:induction false} CleanIsReplaceWithout(s: string)
    ensures Replace(Without(s, Noise), ',', '.') == Clean(s)
  {
    if s != "" {
      CleanIsReplaceWithout(s[1..]);
      if !Noise(s[0]) {
        var rest := Without(s[1..], Noise);
        assert ([s[0]] + rest)[1..] == rest;
      }
    }
  }

  lemma Associates(a: string, b: string, c: string)
    ensures a + (b + c) == (a + b) + c
  {
  }

  lemma {:induction false} CleanConcat(a: string, b: string)
    ensures Clean(a + b) == Clean(a) + Clean(b)
  {
    var s := a + b;
    if a == "" {
      assert s == b;
    } else {
      CleanConcat(a[1..], b);
      assert s[0] == a[0] && s[1..] == a[1..] + b;
      if !Noise(a[0]) { Associates([if a[0] == ',' then '.' else a[0]], Clean(a[1..]), Clean(b)); }
    }
  }

  lemma CleanThree(a: string, b: string, c: string)
    ensures Clean(a + b + c) == Clean(a) + Clean(b) + Clean(c)
  {
    CleanConcat(a + b, c);
    CleanConcat(a, b);
  }

  lemma {:induction false} CleanOrnament(s: string)
    requires Ornament(s)
    ensures Clean(s) == ""
  {
    if s != "" { CleanOrnament(s[1..]); }
  }

  lemma {:induction false} CleanPlain(s: string)
    requires forall i :: 0 <= i < |s| ==> !Noise(s[i]) && s[i] != ','
    ensures Clean(s) == s
  {
    if s != "" { CleanPlain(s[1..]); }
  }

  /** What is left of a thousands separator after cleaning. */
  function CleanSeparator(separator: string): string { if Ornament(separator) then "" else "." }

  lemma SeparatorCleans(separator: string)
    requires Ornament(separator) || separator in [",", "."]
    ensures Clean(separator) == CleanSeparator(separator)
  {
    if Ornament(separator) {
      CleanOrnament(separator);
    } else {
      assert separator[1..] == "";
    }
  }

  lemma GroupCleans(g: string, separator: string, m: nat)
    requires (Ornament(separator) || separator in [",", "."]) && m < 1000
    ensures Clean(g + separator + Pad(m, 3)) == Clean(g) + CleanSeparator(separator) + Pad(m, 3)
  {
    CleanThree(g, separator, Pad(m, 3));
    PadThree(m);
    CleanPlain(Pad(m, 3));
    SeparatorCleans(separator);
  }

  lemma {:induction false} GroupedCleans(n: nat, separator: string)
    requires Ornament(separator) || separator in [",", "."]
    ensures Clean(Grouped(n, separator)) == Grouped(n, CleanSeparator(separator))
  {
    if n < 1000 {
      DigitsOnly(n);
      CleanPlain(Digits(n));
    } else {
      GroupedCleans(n / 1000, separator);
      GroupCleans(Grouped(n / 1000, separator), separator, n % 1000);
    }
  }

  /** The sign characters around the number. */
  function Opening(u: int, st: Style): string {
    if u >= 0 then "" else if st.negative.LeadingMinus? then "-" else "("
  }

  function Closing(u: int, st: Style): string {
    if u >= 0 || st.negative.LeadingMinus? then "" else ")"
  }

  function CleanBody(u: int, decimals: nat, st: Style): string {
    Grouped(Quotient(Abs(u), Pow10(decimals)), CleanSeparator(st.thousands))
    + if decimals == 0 then "" else "." + Pad(Remainder(Abs(u), Pow10(decimals)), decimals)
  }

  lemma PointCleans(point: char)
    requires point == ',' || point == '.'
    ensures Clean([point]) == "."
  {
    assert [point][1..] == "";
  }

  lemma DigitsStay(p: string)
    requires AllDigits(p)
    ensures Clean(p) == p
  {
    CleanPlain(p);
  }

  lemma CleanPointed(g: string, point: char, p: string)
    requires point in {',', '.'} && AllDigits(p)
    ensures Clean(g + ([point] + p)) == Clean(g) + ("." + p)
  {
    CleanConcat(g, [point] + p);
    CleanConcat([point], p);
    PointCleans(point);
    DigitsStay(p);
  }

  lemma BodyCleans(u: int, decimals: nat, st: Style)
    requires ValidStyle(st)
    ensures Clean(Body(u, decimals, st)) == CleanBody(u, decimals, st)
  {
    var w, r := Quotient(Abs(u), Pow10(decimals)), Remainder(Abs(u), Pow10(decimals));
    GroupedCleans(w, st.thousands);
    if decimals == 0 {
      assert Body(u, decimals, st) == Grouped(w, st.thousands);
      assert CleanBody(u, decimals, st) == Grouped(w, CleanSeparator(st.thousands));
    } else {
      PadDigits(r, decimals);
      CleanPointed(Grouped(w, st.thousands), st.point, Pad(r, decimals));
    }
  }

  lemma PadDigits(n: nat, width: nat)
    requires n < Pow10(width)
    ensures AllDigits(Pad(n, width)) && |Pad(n, width)| == width
  {
    PadValue("", n, width);
  }

  lemma CleanInner(lead: string, body: string, trail: string, close: string)
    requires Ornament(lead) && Ornament(trail) && close in ["", ")"]
    ensures Clean(lead + (body + (trail + close))) == Clean(body) + close
  {
    CleanConcat(lead, body + (trail + close));
    CleanConcat(body, trail + close);
    CleanConcat(trail, close);
    CleanOrnament(lead); CleanOrnament(trail); CleanPlain(close);
  }

  lemma CleanWrapped(before: string, open: string, lead: string, body: string, trail: string, close: string)
    requires Ornament(before) && Ornament(lead) && Ornament(trail)
    requires open in ["", "-", "("] && close in ["", ")"]
    ensures Clean(before + (open + (lead + (body + (trail + close))))) == open + (Clean(body) + close)
  {
    var inner := lead + (body + (trail + close));
    CleanInner(lead, body, trail, close);
    CleanOpened(before, open, inner);
  }

  lemma CleanOpened(before: string, open: string, inner: string)
    requires Ornament(before) && open in ["", "-", "("]
    ensures Clean(before + (open + inner)) == open + Clean(inner)
  {
    CleanConcat(before, open + inner);
    CleanConcat(open, inner);
    CleanOrnament(before);
    CleanPlain(open);
  }

  lemma SignedShape(u: int, decimals: nat, st: Style)
    ensures Signed(u, decimals, st)
            == st.before + (Opening(u, st) + (st.lead + (Body(u, decimals, st) + (st.trail + Closing(u, st)))))
  {
    Reassociate(st.lead, Body(u, decimals, st), st.trail, Closing(u, st));
  }

  lemma Reassociate(lead: string, body: string, trail: string, close: string)
    ensures (lead + body + trail) + close == lead + (body + (trail + close))
    ensures "" + (lead + body + trail) == lead + body + trail
    ensures lead + body + trail + "" == lead + body + trail
    ensures forall open: string :: open + (lead + body + trail) + close == open + ((lead + body + trail) + close)
  {
  }

  lemma PrintCleans(u: int, decimals: nat, st: Style)
    requires ValidStyle(st)
    ensures Clean(Print(u, decimals, st)) == Opening(u, st) + (CleanBody(u, decimals, st) + Closing(u, st))
  {
    SignedShape(u, decimals, st);
    CleanConcat(Signed(u, decimals, st), st.after);
    CleanOrnament(st.after);
    CleanWrapped(st.before, Opening(u, st), st.lead, Body(u, decimals, st), st.trail, Closing(u, st));
    BodyCleans(u, decimals, st);
  }

  lemma ParseUnsignedValue(n: nat, fraction: nat, width: nat)
    requires fraction < Pow10(width)
    ensures ParseUnsigned(Digits(n) + "." + Pad(fraction, width)) == Some(Decimal(n * Pow10(width) + fraction, width))
  {
    var d, f := Digits(n), Pad(fraction, width);
    DigitsOnly(n);
    PadValue(d, fraction, width);
    SplitNone(d, '.');
    SplitLast(d, '.', f);
    assert Split(d + "." + f, '.') == [d, f];
    ConcatTwo(d, f);
  }

  lemma ConcatTwo(d: string, f: string)
    ensures Concat([d, f]) == d + f && Concat([d]) == d
  {
    assert [d, f][1..] == [f];
    assert Concat([f]) == f + Concat([]) == f;
    assert Concat([d]) == d + Concat([]) == d;
  }

  lemma ParseUnsignedWhole(n: nat)
    ensures ParseUnsigned(Digits(n)) == Some(Decimal(n, 0))
  {
    var d := Digits(n);
    DigitsOnly(n);
    SplitNone(d, '.');
    ConcatTwo(d, "");
  }

  /** Parentheses are resolved to a sign. */
  lemma SignResolves(open: string, number: string, close: string)
    requires open in ["", "-", "("] && close in ["", ")"]
    requires forall i :: 0 <= i < |number| ==> IsDigit(number[i]) || number[i] == '.'
    ensures Without(Replace(open + (number + close), '(', '-'), IsClosing) == (if open == "" then "" else "-") + number
  {
    var sign := if open == "" then "" else "-";
    assert Replace(open + (number + close), '(', '-') == (sign + number) + close;
    WithoutConcat(sign + number, close, IsClosing);
    WithoutNone(sign + number, IsClosing);
    WithoutAll(close, IsClosing);
  }

  lemma ParseFloatSign(number: string, d: Decimal)
    requires number != "" && IsDigit(number[0]) && ParseUnsigned(number) == Some(d)
    ensures ParseFloat(number) == Some(d)
    ensures ParseFloat("-" + number) == Some(Decimal(-d.mantissa, d.scale))
  {
    var signed := "-" + number;
    assert signed[1..] == number;
  }

  /** An opened number parses as its negation. */
  lemma ParseSigned(u: int, number: string, st: Style, d: Decimal)
    requires number != "" && IsDigit(number[0]) && ParseUnsigned(number) == Some(d)
    requires forall i :: 0 <= i < |number| ==> IsDigit(number[i]) || number[i] == '.'
    ensures Finish(Opening(u, st) + (number + Closing(u, st)))
            == Some(Decimal(if u < 0 then -d.mantissa else d.mantissa, d.scale))
  {
    SignResolves(Opening(u, st), number, Closing(u, st));
    ParseFloatSign(number, d);
    assert "" + number == number;
  }

  lemma NoValueHasNoDigit(s: string)
    requires s == "" || s == "-" || s == "\U{2014}" || s == "N/A"
    ensures forall i :: 0 <= i < |Clean(s)| ==> !IsDigit(Clean(s)[i])
  {
    CleanPlain(s);
  }

  predicate Blank(s: string) { forall i :: 0 <= i < |s| ==> IsSpace(s[i]) }

  lemma {:induction false} StripLeftBlank(blank: string, s: string)
    requires Blank(blank) && (s == "" || !IsSpace(s[0]))
    ensures StripLeft(blank + s) == s
  {
    if blank == "" {
      assert blank + s == s;
    } else {
      assert (blank + s)[1..] == blank[1..] + s;
      StripLeftBlank(blank[1..], s);
    }
  }

  lemma {:induction false} StripRightBlank(s: string, blank: string)
    requires Blank(blank) && (s == "" || !IsSpace(s[|s| - 1]))
    ensures StripRight(s + blank) == s
  {
    if blank == "" {
      assert s + blank == s;
    } else {
      var n := |blank| - 1;
      assert (s + blank)[..|s| + n] == s + blank[..n];
      StripRightBlank(s, blank[..n]);
    }
  }

  lemma StripBlanks(before: string, s: string, after: string)
    requires Blank(before) && Blank(after)
    requires s != "" && !IsSpace(s[0]) && !IsSpace(s[|s| - 1])
    ensures Strip(before + (s + after)) == s
  {
    StripLeftBlank(before, s + after);
    StripRightBlank(s, after);
  }

  lemma StripOnlyBlanks(blank: string)
    requires Blank(blank)
    ensures Strip(blank) == ""
  {
    StripLeftBlank(blank, "");
    assert blank + "" == blank;
  }

  /** Nothing, blanks, and a dash, em dash or "N/A" between blanks mean: no amount. */
  lemma NoAmount(before: string, s: string, after: string)
    requires Blank(before) && Blank(after)
    requires s == "-" || s == "\U{2014}" || s == "N/A"
    ensures ParseMoney(None) == None && ParseMoney(Some(before)) == None
    ensures ParseMoney(Some(before + (s + after))) == None
  {
    StripOnlyBlanks(before);
    StripBlanks(before, s, after);
  }

  predicate Digitless(s: string) { forall i :: 0 <= i < |s| ==> !IsDigit(s[i]) }

  /** Text of signs, points and ornaments only, however many, is no amount. */
  lemma DigitlessIsNoAmount(s: string)
    requires forall i :: 0 <= i < |s| ==> !('0' <= s[i] <= '9' || 'A' <= s[i] <= 'Z' || 'a' <= s[i] <= 'z')
    ensures ParseMoney(Some(s)) == None
  {
    WithoutStrip(s, Noise);
    CleanIsReplaceWithout(s);
    CleanIsReplaceWithout(Strip(s));
    DigitlessWithout(s, Noise);
    var clean := Clean(s);
    DigitlessParts(clean);
    var parts := Split(clean, '.');
    DigitlessConcat(parts[..|parts| - 1]);
    var signed := Replace(KeepLastPoint(clean), '(', '-');
    DigitlessWithout(signed, IsClosing);
    var number := Without(signed, IsClosing);
    DigitlessUnsigned(number);
    if number != "" { DigitlessUnsigned(number[1..]); }
  }

  lemma {:induction false} DigitlessWithout(s: string, dropped: char -> bool)
    requires Digitless(s)
    ensures Digitless(Without(s, dropped))
  {
    if s != "" { DigitlessWithout(s[1..], dropped); }
  }

  lemma {:induction false} DigitlessParts(s: string)
    requires Digitless(s)
    ensures forall i :: 0 <= i < |Split(s, '.')| ==> Digitless(Split(s, '.')[i])
  {
    if s != "" { DigitlessParts(s[1..]); }
  }

  lemma {:induction false} DigitlessConcat(parts: seq<string>)
    requires forall i :: 0 <= i < |parts| ==> Digitless(parts[i])
    ensures Digitless(Concat(parts))
  {
    if parts != [] { DigitlessConcat(parts[1..]); }
  }

  lemma DigitlessUnsigned(s: string)
    requires Digitless(s)
    ensures ParseUnsigned(s) == None
  {
    DigitlessParts(s);
    DigitlessConcat(Split(s, '.'));
  }

  /** Text that cleans to something with a digit is none of the "no value" spellings. */
  lemma ParseMoneyUnfolds(s: string)
    requires exists i :: 0 <= i < |Clean(s)| && IsDigit(Clean(s)[i])
    ensures ParseMoney(Some(s)) == Finish(KeepLastPoint(Clean(s)))
  {
    var t := Strip(s);
    WithoutStrip(s, Noise);
    CleanIsReplaceWithout(s);
    CleanIsReplaceWithout(t);
    if t in ["", "-", "\U{2014}", "N/A"] {
      NoValueHasNoDigit(t);
      assert false;
    }
  }

  lemma AroundPoint(open: string, digits: string, fraction: string, close: string)
    ensures open + ((digits + ("." + fraction)) + close) == (open + digits) + "." + (fraction + close)
    ensures (open + digits) + "." + (fraction + close) == open + ((digits + "." + fraction) + close)
  {
  }

  /** The number the whole-digits part and the fraction leave after only the last point is kept. */
  lemma KeepsPoint(open: string, digits: string, fraction: string, close: string, n: nat)
    requires open in ["", "-", "("] && close in ["", ")"] && AllDigits(fraction)
    requires Without(digits, IsPoint) == Digits(n)
    ensures KeepLastPoint(open + ((digits + ("." + fraction)) + close)) == open + ((Digits(n) + "." + fraction) + close)
  {
    AroundPoint(open, digits, fraction, close);
    AroundPoint(open, Digits(n), fraction, close);
    KeepsLastPoint(open + digits, fraction + close);
    WithoutConcat(open, digits, IsPoint);
    WithoutNone(open, IsPoint);
  }

  lemma FinishPointed(u: int, st: Style, w: nat, r: nat, width: nat)
    requires r < Pow10(width) && Abs(u) == w * Pow10(width) + r
    ensures Finish(Opening(u, st) + ((Digits(w) + "." + Pad(r, width)) + Closing(u, st))) == Some(Decimal(u, width))
  {
    PadDigits(r, width);
    ParseUnsignedValue(w, r, width);
    NumberShape(w, Pad(r, width));
    ParseSigned(u, Digits(w) + "." + Pad(r, width), st, Decimal(w * Pow10(width) + r, width));
  }

  /** The rest of the parser on cleaned text with a (possibly grouped) whole part, a point and a fraction. */
  lemma ParsePointed(u: int, st: Style, text: string, digits: string, w: nat, r: nat, width: nat)
    requires r < Pow10(width) && Without(digits, IsPoint) == Digits(w)
    requires Abs(u) == w * Pow10(width) + r && width >= 1
    requires Clean(text) == Opening(u, st) + ((digits + ("." + Pad(r, width))) + Closing(u, st))
    ensures ParseMoney(Some(text)) == Some(Decimal(u, width))
  {
    PadDigits(r, width);
    KeepsPoint(Opening(u, st), digits, Pad(r, width), Closing(u, st), w);
    FinishPointed(u, st, w, r, width);
    PointedHasDigit(Opening(u, st), digits, Pad(r, width), Closing(u, st));
    ParseMoneyUnfolds(text);
  }

  /** Round trip: an amount printed with at least one decimal, in any of the styles, parses to itself. */
  lemma ParseInvertsPrint(u: int, decimals: nat, st: Style)
    requires ValidStyle(st) && decimals >= 1
    ensures ParseMoney(Some(Print(u, decimals, st))) == Some(Decimal(u, decimals))
  {
    var w, r := Quotient(Abs(u), Pow10(decimals)), Remainder(Abs(u), Pow10(decimals));
    var separator := CleanSeparator(st.thousands);
    PrintCleans(u, decimals, st);
    UngroupDigits(w, separator, IsPoint);
    DigitsOnly(w);
    QuotientRemainder(Abs(u), Pow10(decimals));
    ParsePointed(u, st, Print(u, decimals, st), Grouped(w, separator), w, r, decimals);
  }

  lemma QuotientRemainder(n: nat, d: int)
    requires d >= 1
    ensures n == Quotient(n, d) * d + Remainder(n, d)
  {
  }

  lemma NumberShape(n: nat, fraction: string)
    requires AllDigits(fraction)
    ensures var s := Digits(n) + "." + fraction;
            s != "" && IsDigit(s[0]) && forall i :: 0 <= i < |s| ==> IsDigit(s[i]) || s[i] == '.'
  {
    DigitsOnly(n);
  }

  lemma PointedHasDigit(open: string, digits: string, fraction: string, close: string)
    requires fraction != "" && AllDigits(fraction)
    ensures var s := open + ((digits + ("." + fraction)) + close);
            exists i :: 0 <= i < |s| && IsDigit(s[i])
  {
    var s := open + ((digits + ("." + fraction)) + close);
    assert s[|open| + |digits| + 1] == fraction[0];
  }

  lemma WholeHasDigit(open: string, digits: string, close: string)
    requires digits != "" && AllDigits(digits)
    ensures var s := open + (digits + close);
            exists i :: 0 <= i < |s| && IsDigit(s[i])
  {
    var s := open + (digits + close);
    assert s[|open|] == digits[0];
  }

  /** Does the parse equal the printed amount u / 10^decimals as a number? */
  ghost predicate ReadsBack(u: int, decimals: nat, st: Style) {
    match ParseMoney(Some(Print(u, decimals, st)))
    case None => false
    case Some(d) => d.mantissa * Pow10(decimals) == u * Pow10(d.scale)
  }

  /** Printed without decimals, an amount of 1000 or more grouped with ',' or '.' is read as thousandths:
      the last group is taken for the fraction. */
  lemma ParseOfWholePrint(u: int, st: Style)
    requires ValidStyle(st)
    ensures ParseMoney(Some(Print(u, 0, st)))
            == Some(Decimal(u, if Abs(u) >= 1000 && st.thousands in [",", "."] then 3 else 0))
  {
    var n := Abs(u);
    var separator := CleanSeparator(st.thousands);
    PrintCleans(u, 0, st);
    assert Quotient(n, Pow10(0)) == n;
    assert CleanBody(u, 0, st) == Grouped(n, separator);
    if n >= 1000 && st.thousands in [",", "."] {
      assert !Noise(st.thousands[0]);
      ParseGroupedWhole(u, st, Print(u, 0, st));
    } else {
      UngroupedIsDigits(n, separator);
      ParseWhole(u, st, Print(u, 0, st));
    }
  }

  lemma LastGroup(n: nat)
    requires n >= 1000
    ensures Grouped(n, ".") == Grouped(n / 1000, ".") + ("." + Pad(n % 1000, 3))
  {
    Associates(Grouped(n / 1000, "."), ".", Pad(n % 1000, 3));
  }

  lemma ParseGroupedWhole(u: int, st: Style, text: string)
    requires Abs(u) >= 1000 && Clean(text) == Opening(u, st) + (Grouped(Abs(u), ".") + Closing(u, st))
    ensures ParseMoney(Some(text)) == Some(Decimal(u, 3))
  {
    var n := Abs(u);
    var g := Grouped(n / 1000, ".");
    LastGroup(n);
    UngroupDigits(n / 1000, ".", IsPoint);
    DigitsOnly(n / 1000);
    ThousandIsPow10();
    ParsePointed(u, st, text, g, n / 1000, n % 1000, 3);
  }

  lemma FinishWhole(u: int, st: Style)
    ensures Finish(Opening(u, st) + (Digits(Abs(u)) + Closing(u, st))) == Some(Decimal(u, 0))
  {
    DigitsOnly(Abs(u));
    ParseUnsignedWhole(Abs(u));
    ParseSigned(u, Digits(Abs(u)), st, Decimal(Abs(u), 0));
  }

  lemma ParseWhole(u: int, st: Style, text: string)
    requires Clean(text) == Opening(u, st) + (Digits(Abs(u)) + Closing(u, st))
    ensures ParseMoney(Some(text)) == Some(Decimal(u, 0))
  {
    DigitsOnly(Abs(u));
    NoPointKept(Opening(u, st), Digits(Abs(u)), Closing(u, st));
    FinishWhole(u, st);
    WholeHasDigit(Opening(u, st), Digits(Abs(u)), Closing(u, st));
    ParseMoneyUnfolds(text);
  }

  lemma ThousandIsPow10()
    ensures Pow10(3) == 1000
  {
    assert Pow10(3) == 10 * Pow10(2) == 100 * Pow10(1) == 1000;
  }

  lemma {:induction false} UngroupedIsDigits(n: nat, separator: string)
    requires separator == "" || n < 1000
    ensures Grouped(n, separator) == Digits(n)
  {
    if n >= 1000 {
      UngroupedIsDigits(n / 1000, separator);
      DigitsSplit(n);
    }
  }

  lemma NoPointKept(open: string, digits: string, close: string)
    requires open in ["", "-", "("] && close in ["", ")"] && AllDigits(digits)
    ensures KeepLastPoint(open + (digits + close)) == open + (digits + close)
  {
    SplitNone(open + (digits + close), '.');
  }

  /** Exactly when an amount reads back as itself: it has decimals, or is below a thousand,
      or is not grouped with a comma or point. */
  lemma ReadsBackIff(u: int, decimals: nat, st: Style)
    requires ValidStyle(st)
    ensures ReadsBack(u, decimals, st) <==> decimals >= 1 || Abs(u) < 1000 || st.thousands !in [",", "."]
  {
    ThousandIsPow10();
    if decimals >= 1 {
      ParseInvertsPrint(u, decimals, st);
    } else {
      ParseOfWholePrint(u, st);
    }
  }
}
