/** Unpadded base64url text of bytes, and the lenient decoder that reads it back (RFC 4648, sections 3.2 to 5). */
module Base64Url {
  import opened Common

  type byte = b: int | 0 <= b < 256

  type sextet = n: int | 0 <= n < 64

  /** The URL-safe alphabet. */
  function CharOf(n: sextet): (c: char)
    ensures c != '=' && c != '.'
  {
    if n < 26 then (('A' as int) + n) as char
    else if n < 52 then (('a' as int) + n - 26) as char
    else if n < 62 then (('0' as int) + n - 52) as char
    else if n == 62 then '-' else '_'
  }

  /** The value of a character; the decoder also accepts the standard alphabet's '+' and '/'. */
  function SextetOf(c: char): Option<sextet> {
    if 'A' <= c <= 'Z' then Some(c as int - 'A' as int)
    else if 'a' <= c <= 'z' then Some(c as int - 'a' as int + 26)
    else if '0' <= c <= '9' then Some(c as int - '0' as int + 52)
    else if c == '-' || c == '+' then Some(62)
    else if c == '_' || c == '/' then Some(63)
    else None
  }

  lemma SextetOfChar(n: sextet)
    ensures SextetOf(CharOf(n)) == Some(n)
  {
  }

  /** The four sextets of three bytes. */
  function Group(a: byte, b: byte, c: byte): seq<sextet> {
    [a / 4, a % 4 * 16 + b / 16, b % 16 * 4 + c / 64, c % 64]
  }

  function Chars(ns: seq<sextet>): (s: string)
    ensures |s| == |ns| && forall i :: 0 <= i < |ns| ==> s[i] == CharOf(ns[i])
  {
    seq(|ns|, i requires 0 <= i < |ns| => CharOf(ns[i]))
  }

  const UPPER := "ABCDEFGHIJKLMNOPQRSTUVWXYZ"
  const LOWER := "abcdefghijklmnopqrstuvwxyz"
  const DIGITS := "0123456789"
  const ALPHABET := UPPER + LOWER + DIGITS + "-_"

  /** The characters are those of the URL-safe alphabet of RFC 4648, section 5, table 2. */
  lemma AlphabetIs(n: sextet)
    ensures |ALPHABET| == 64 && CharOf(n) == ALPHABET[n]
  {
    assert |UPPER| == 26 && |LOWER| == 26 && |DIGITS| == 10;
    if n < 26 {
      assert UPPER[n] == CharOf(n);
    } else if n < 52 {
      assert LOWER[n - 26] == CharOf(n);
    } else if n < 62 {
      assert DIGITS[n - 52] == CharOf(n);
    }
  }

  /** The decoder reads exactly the alphabet, and '+' and '/' for its last two characters. */
  lemma SextetOfIff(c: char, n: sextet)
    ensures SextetOf(c) == Some(n) <==> c == CharOf(n) || (n == 62 && c == '+') || (n == 63 && c == '/')
  {
  }

  /** The four sextets are the bits of the three bytes, most significant first. */
  lemma GroupBits(a: byte, b: byte, c: byte)
    ensures var g := Group(a, b, c);
            ((g[0] as int * 64 + g[1] as int) * 64 + g[2] as int) * 64 + g[3] as int
            == (a as int * 256 + b as int) * 256 + c as int
  {
  }

  /** The padded encoding. */
  function EncodePadded(raw: seq<byte>): string {
    if raw == [] then ""
    else if |raw| == 1 then Chars(Group(raw[0], 0, 0)[..2]) + "=="
    else if |raw| == 2 then Chars(Group(raw[0], raw[1], 0)[..3]) + "="
    else Chars(Group(raw[0], raw[1], raw[2])) + EncodePadded(raw[3..])
  }

  function StripRight(s: string, c: char): string {
    if s != "" && s[|s| - 1] == c then StripRight(s[..|s| - 1], c) else s
  }

  function Encode(raw: seq<byte>): string { StripRight(EncodePadded(raw), '=') }

  function Repeat(c: char, n: nat): string { if n == 0 then "" else Repeat(c, n - 1) + [c] }

  /** How many '=' bring a length to a multiple of four. */
  function PadCount(n: nat): nat { (4 - n % 4) % 4 }

  /** The decoder's state: position in the group of four, bits carried over, pads seen, bytes produced. */
  datatype Machine = Machine(quad: int, left: int, pads: nat, out: seq<byte>)

  predicate ValidMachine(m: Machine) {
    && 0 <= m.quad < 4
    && 0 <= m.left < (if m.quad == 1 then 64 else if m.quad == 2 then 16 else if m.quad == 3 then 4 else 1)
  }

  function Feed(m: Machine, n: sextet): (r: Machine)
    requires ValidMachine(m)
    ensures ValidMachine(r)
  {
    if m.quad == 0 then Machine(1, n, 0, m.out)
    else if m.quad == 1 then Machine(2, n % 16, 0, m.out + [m.left * 4 + n / 16])
    else if m.quad == 2 then Machine(3, n % 4, 0, m.out + [m.left * 16 + n / 4])
    else Machine(0, 0, 0, m.out + [m.left * 64 + n])
  }

  /** Characters outside the alphabet are skipped; enough padding ends the input; an unfinished group at
      the end of the input is an error. */
  function Decode4(s: string, m: Machine): Option<seq<byte>>
    requires ValidMachine(m)
  {
    if s == "" then (if m.quad == 0 then Some(m.out) else None)
    else if s[0] == '=' then
      if m.quad >= 2 && m.quad + m.pads + 1 >= 4 then Some(m.out)
      else Decode4(s[1..], if m.quad >= 2 then m.(pads := m.pads + 1) else m)
    else
      match SextetOf(s[0])
      case None => Decode4(s[1..], m)
      case Some(n) => Decode4(s[1..], Feed(m, n))
  }

  function Decode(s: string): Option<seq<byte>> {
    Decode4(s + Repeat('=', PadCount(|s|)), Machine(0, 0, 0, []))
  }

  // ---- Round trip ----

  lemma FeedChar(n: sextet, rest: string, m: Machine)
    requires ValidMachine(m)
    ensures Decode4([CharOf(n)] + rest, m) == Decode4(rest, Feed(m, n))
  {
    SextetOfChar(n);
    assert ([CharOf(n)] + rest)[1..] == rest;
  }

  lemma {:induction false} FeedChars(ns: seq<sextet>, rest: string, m: Machine)
    requires ValidMachine(m)
    ensures Decode4(Chars(ns) + rest, m) == Decode4(rest, FeedAll(m, ns))
    decreases ns
  {
    if ns == [] {
      assert Chars(ns) + rest == rest;
    } else {
      assert Chars(ns) + rest == [CharOf(ns[0])] + (Chars(ns[1..]) + rest);
      FeedChar(ns[0], Chars(ns[1..]) + rest, m);
      FeedChars(ns[1..], rest, Feed(m, ns[0]));
    }
  }

  function FeedAll(m: Machine, ns: seq<sextet>): (r: Machine)
    requires ValidMachine(m)
    ensures ValidMachine(r)
    decreases ns
  {
    if ns == [] then m else FeedAll(Feed(m, ns[0]), ns[1..])
  }

  /** Two, three and four sextets of a group. */
  lemma FeedGroup(a: byte, b: byte, c: byte, out: seq<byte>)
    ensures var g, m := Group(a, b, c), Machine(0, 0, 0, out);
            && FeedAll(m, g[..2]) == Machine(2, b / 16, 0, out + [a])
            && FeedAll(m, g[..3]) == Machine(3, c / 64, 0, out + [a, b])
            && FeedAll(m, g) == Machine(0, 0, 0, out + [a, b, c])
  {
    var g, m := Group(a, b, c), Machine(0, 0, 0, out);
    var m1 := Feed(m, g[0]);
    var m2 := Feed(m1, g[1]);
    var m3 := Feed(m2, g[2]);
    var m4 := Feed(m3, g[3]);
    assert m2 == Machine(2, b / 16, 0, out + [a]);
    assert m3.out == out + [a] + [b] == out + [a, b];
    assert m4.out == out + [a, b] + [c] == out + [a, b, c];
    FeedAllTwo(m, g[0], g[1]);
    FeedAllTwo(m2, g[2], g[3]);
    assert g[..2] == [g[0], g[1]];
    FeedAllSplit(m, g[..2], [g[2]]);
    FeedAllSplit(m, g[..2], [g[2], g[3]]);
    assert g[..3] == g[..2] + [g[2]] && g == g[..2] + [g[2], g[3]];
    assert FeedAll(m2, [g[2]]) == FeedAll(m3, [g[2]][1..]) == m3;
  }

  lemma FeedAllTwo(m: Machine, x: sextet, y: sextet)
    requires ValidMachine(m)
    ensures FeedAll(m, [x, y]) == Feed(Feed(m, x), y)
  {
    assert [x, y][1..] == [y] && [y][1..] == [];
    assert FeedAll(Feed(m, x), [y]) == FeedAll(Feed(Feed(m, x), y), []);
  }

  lemma {:induction false} FeedAllSplit(m: Machine, xs: seq<sextet>, ys: seq<sextet>)
    requires ValidMachine(m)
    ensures FeedAll(m, xs + ys) == FeedAll(FeedAll(m, xs), ys)
    decreases xs
  {
    if xs == [] {
      assert xs + ys == ys;
    } else {
      FeedAllSplit(Feed(m, xs[0]), xs[1..], ys);
      assert (xs + ys)[1..] == xs[1..] + ys;
    }
  }

  lemma DecodeOne(a: byte, out: seq<byte>)
    ensures Decode4(EncodePadded([a]), Machine(0, 0, 0, out)) == Some(out + [a])
  {
    FeedGroup(a, 0, 0, out);
    FeedChars(Group(a, 0, 0)[..2], "==", Machine(0, 0, 0, out));
    assert "=="[1..] == "=";
  }

  lemma DecodeTwo(a: byte, b: byte, out: seq<byte>)
    ensures Decode4(EncodePadded([a, b]), Machine(0, 0, 0, out)) == Some(out + [a, b])
  {
    FeedGroup(a, b, 0, out);
    FeedChars(Group(a, b, 0)[..3], "=", Machine(0, 0, 0, out));
  }

  lemma DecodeThree(a: byte, b: byte, c: byte, rest: string, out: seq<byte>)
    ensures Decode4(Chars(Group(a, b, c)) + rest, Machine(0, 0, 0, out))
            == Decode4(rest, Machine(0, 0, 0, out + [a, b, c]))
  {
    FeedGroup(a, b, c, out);
    FeedChars(Group(a, b, c), rest, Machine(0, 0, 0, out));
  }

  lemma SplitThree<T>(out: seq<T>, raw: seq<T>)
    requires |raw| >= 3
    ensures out + [raw[0], raw[1], raw[2]] + raw[3..] == out + raw
  {
    assert raw == [raw[0], raw[1], raw[2]] + raw[3..];
  }

  /** The decoder inverts the padded encoding. */
  lemma {:induction false} DecodePadded(raw: seq<byte>, out: seq<byte>)
    ensures Decode4(EncodePadded(raw), Machine(0, 0, 0, out)) == Some(out + raw)
    decreases raw
  {
    if raw == [] {
      assert out + raw == out;
    } else if |raw| == 1 {
      DecodeOne(raw[0], out);
      assert raw == [raw[0]];
    } else if |raw| == 2 {
      DecodeTwo(raw[0], raw[1], out);
      assert raw == [raw[0], raw[1]];
    } else {
      DecodeThree(raw[0], raw[1], raw[2], EncodePadded(raw[3..]), out);
      DecodePadded(raw[3..], out + [raw[0], raw[1], raw[2]]);
      SplitThree(out, raw);
    }
  }

  /** Data characters followed by at most two pads, of total length a multiple of four. */
  ghost predicate Shaped(s: string, data: string, k: nat) {
    && k <= 2 && s == data + Repeat('=', k) && (|data| + k) % 4 == 0
    && '=' !in data && '.' !in data
  }

  lemma CharsPlain(ns: seq<sextet>)
    ensures '=' !in Chars(ns) && '.' !in Chars(ns)
  {
  }

  lemma ShapeExtends(head: string, s: string, data: string, k: nat)
    requires |head| == 4 && '=' !in head && '.' !in head && Shaped(s, data, k)
    ensures Shaped(head + s, head + data, k)
  {
    assert head + (data + Repeat('=', k)) == (head + data) + Repeat('=', k);
  }

  /** The shape of the padded encoding. */
  lemma {:induction false} PaddedShape(raw: seq<byte>) returns (data: string, k: nat)
    ensures Shaped(EncodePadded(raw), data, k)
  {
    RepeatSmall();
    if raw == [] {
      data, k := "", 0;
    } else if |raw| == 1 {
      data, k := Chars(Group(raw[0], 0, 0)[..2]), 2;
      CharsPlain(Group(raw[0], 0, 0)[..2]);
    } else if |raw| == 2 {
      data, k := Chars(Group(raw[0], raw[1], 0)[..3]), 1;
      CharsPlain(Group(raw[0], raw[1], 0)[..3]);
    } else {
      var g := Group(raw[0], raw[1], raw[2]);
      var d, n := PaddedShape(raw[3..]);
      CharsPlain(g);
      ShapeExtends(Chars(g), EncodePadded(raw[3..]), d, n);
      data, k := Chars(g) + d, n;
    }
  }

  lemma RepeatSmall()
    ensures Repeat('=', 0) == "" && Repeat('=', 1) == "=" && Repeat('=', 2) == "=="
  {
    assert Repeat('=', 1) == Repeat('=', 0) + "=";
    assert Repeat('=', 2) == Repeat('=', 1) + "=";
  }

  lemma {:induction false} StripPads(data: string, k: nat)
    requires '=' !in data
    ensures StripRight(data + Repeat('=', k), '=') == data
  {
    if k == 0 {
      assert data + Repeat('=', k) == data;
    } else {
      StripPads(data, k - 1);
      var s := data + Repeat('=', k);
      assert s[..|s| - 1] == data + Repeat('=', k - 1);
    }
  }

  /** Stripping the padding and adding it back by length are inverse, for every byte length, so decoding
      inverts encoding; and the separator never occurs in an encoded part. */
  lemma DecodeInvertsEncode(raw: seq<byte>)
    ensures Decode(Encode(raw)) == Some(raw) && '.' !in Encode(raw)
  {
    var data, k := PaddedShape(raw);
    StripPads(data, k);
    assert PadCount(|data|) == k;
    DecodePadded(raw, []);
    assert [] + raw == raw;
  }

  /** Feeding k sextets to an empty decoder leaves k % 4 of them in the open group and yields k * 3 / 4 bytes. */
  lemma {:induction false} FeedCounts(m: Machine, ns: seq<sextet>)
    requires ValidMachine(m) && m.pads == 0
    ensures var r := FeedAll(m, ns);
            && r.quad == (m.quad + |ns|) % 4 && r.pads == 0
            && 4 * |r.out| + Held(r) == 4 * |m.out| + Held(m) + 3 * |ns|
    decreases ns
  {
    if ns != [] { FeedCounts(Feed(m, ns[0]), ns[1..]); }
  }

  /** Three for the first sextet of an open group, two for two and one for three: what is not yet a byte. */
  function Held(m: Machine): int { if m.quad == 0 then 0 else 4 - m.quad }

  /** Unpadded text of the alphabet decodes unless one character is left over, to three bytes for four characters. */
  lemma DecodableIff(ns: seq<sextet>)
    ensures Decode(Chars(ns)).Some? <==> |ns| % 4 != 1
    ensures Decode(Chars(ns)).Some? ==> |Decode(Chars(ns)).value| == |ns| * 3 / 4
  {
    var m := Machine(0, 0, 0, []);
    var pads := Repeat('=', PadCount(|ns|));
    FeedChars(ns, pads, m);
    FeedCounts(m, ns);
    RepeatSmall();
    if |ns| % 4 == 1 {
      LonelyFails(FeedAll(m, ns), pads);
    }
  }

  /** A single leftover character is an error, however much padding follows. */
  lemma {:induction false} LonelyFails(m: Machine, pads: string)
    requires ValidMachine(m) && m.quad == 1 && forall i :: 0 <= i < |pads| ==> pads[i] == '='
    ensures Decode4(pads, m) == None
    decreases pads
  {
    if pads != "" { LonelyFails(m, pads[1..]); }
  }
}
