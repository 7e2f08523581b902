// Base64 (section 4 of RFC 4648): the two loops, each proved against one arithmetic meaning, and
// the round trips in both directions.

module Base64 {
  import opened Wrappers

  type Byte = b: int | 0 <= b < 256

  const UPPER := "ABCDEFGHIJKLMNOPQRSTUVWXYZ"
  const LOWER := "abcdefghijklmnopqrstuvwxyz"
  const DIGITS := "0123456789"

  /** The symbol of a sextet: its entry in the table of 64 characters. */
  function Symbol(v: nat): char
    requires v < 64
  {
    assert |UPPER| == 26 && |LOWER| == 26 && |DIGITS| == 10;
    (UPPER + LOWER + DIGITS + "+/")[v]
  }

  /** The value of a symbol, or -1 for a character outside the alphabet. */
  function Value(c: char): int {
    if 'A' <= c <= 'Z' then c as int - 'A' as int
    else if 'a' <= c <= 'z' then c as int - 'a' as int + 26
    else if '0' <= c <= '9' then c as int - '0' as int + 52
    else if c == '+' then 62
    else if c == '/' then 63
    else -1
  }

  lemma TableRange(v: nat)
    requires v < 64
    ensures v < 26 ==> Symbol(v) == 'A' + v as char
    ensures 26 <= v < 52 ==> Symbol(v) == 'a' + (v - 26) as char
    ensures 52 <= v < 62 ==> Symbol(v) == '0' + (v - 52) as char
    ensures v >= 62 ==> Symbol(v) == if v == 62 then '+' else '/'
  {
    if v < 26 {
      assert Symbol(v) == UPPER[v];
    } else if v < 52 {
      assert Symbol(v) == LOWER[v - 26];
    } else if v < 62 {
      assert Symbol(v) == DIGITS[v - 52];
    }
  }

  /** The table and the decoder's ranges are inverse to each other. */
  lemma ValueOfSymbol(v: nat)
    requires v < 64
    ensures Value(Symbol(v)) == v
  {
    hide Symbol;
    TableRange(v);
  }

  lemma SymbolOfValue(c: char)
    requires Value(c) >= 0
    ensures Value(c) < 64 && Symbol(Value(c)) == c
  {
    hide Symbol;
    TableRange(Value(c));
  }

  /** The number that a byte string writes in base 256, most significant byte first. */
  ghost function Number(bytes: seq<Byte>): nat {
    if bytes == [] then 0 else Number(bytes[..|bytes| - 1]) * 256 + bytes[|bytes| - 1]
  }

  ghost predicate AllSymbols(text: string) {
    forall k :: 0 <= k < |text| ==> Value(text[k]) >= 0
  }

  /** The number that a string of symbols writes in base 64. */
  ghost function Sextets(text: string): int {
    if text == [] then 0 else Sextets(text[..|text| - 1]) * 64 + Value(text[|text| - 1])
  }

  /** How many of the last characters, two at most, are padding. */
  ghost function Padding(text: string): (p: nat)
    ensures p <= 2 && p <= |text|
  {
    if |text| >= 2 && text[|text| - 1] == '=' && text[|text| - 2] == '=' then 2
    else if |text| >= 1 && text[|text| - 1] == '=' then 1
    else 0
  }

  ghost function Symbols(text: string): string {
    text[..|text| - Padding(text)]
  }

  /** Bits that the symbols carry beyond the last whole byte: two for each padding character. */
  ghost function SpareRange(text: string): (r: nat)
    ensures r == 1 || r == 4 || r == 16
  {
    match Padding(text) case 0 => 1 case 1 => 4 case _ => 16
  }

  /** Whole groups of four, symbols first, then at most two padding characters. */
  ghost predicate WellFormed(text: string) {
    |text| % 4 == 0 && AllSymbols(Symbols(text))
  }

  /** The bytes of a text: its bits read as one number, without the spare ones. */
  ghost predicate Denotes(text: string, bytes: seq<Byte>) {
    && WellFormed(text)
    && |bytes| == |text| / 4 * 3 - Padding(text)
    && Number(bytes) == Sextets(Symbols(text)) / SpareRange(text)
  }

  /** The spare bits are zero, as section 3.5 of RFC 4648 asks of an encoder. */
  ghost predicate Canonical(text: string) {
    WellFormed(text) && Sextets(Symbols(text)) % SpareRange(text) == 0
  }

  // ---- Numerals ----

  lemma NumberSnoc(bytes: seq<Byte>, b: Byte)
    ensures Number(bytes + [b]) == Number(bytes) * 256 + b
  {
    assert (bytes + [b])[..|bytes|] == bytes;
  }

  lemma SextetsSnoc(text: string, c: char)
    ensures Sextets(text + [c]) == Sextets(text) * 64 + Value(c)
  {
    assert (text + [c])[..|text|] == text;
  }

  lemma SextetsPair(text: string, a: char, b: char)
    ensures Sextets(text + [a, b]) == Sextets(text) * 4096 + Value(a) * 64 + Value(b)
  {
    SextetsSnoc(text, a);
    SextetsSnoc(text + [a], b);
    assert text + [a] + [b] == text + [a, b];
  }

  lemma SextetsTriple(text: string, a: char, b: char, c: char)
    ensures Sextets(text + [a, b, c]) == Sextets(text) * 262144 + Value(a) * 4096 + Value(b) * 64 + Value(c)
  {
    SextetsPair(text, a, b);
    SextetsSnoc(text + [a, b], c);
    assert text + [a, b] + [c] == text + [a, b, c];
  }

  lemma SextetsQuad(text: string, a: char, b: char, c: char, d: char)
    ensures Sextets(text + [a, b, c, d])
         == Sextets(text) * 16777216 + Value(a) * 262144 + Value(b) * 4096 + Value(c) * 64 + Value(d)
  {
    SextetsTriple(text, a, b, c);
    SextetsSnoc(text + [a, b, c], d);
    assert text + [a, b, c] + [d] == text + [a, b, c, d];
  }

  /** Byte strings of one length are told apart by their numbers. */
  lemma {:induction false} NumberIsInjective(x: seq<Byte>, y: seq<Byte>)
    requires |x| == |y| && Number(x) == Number(y)
    ensures x == y
  {
    if x != [] {
      var m, n := x[..|x| - 1], y[..|y| - 1];
      assert Number(m) == Number(x) / 256 == Number(n);
      NumberIsInjective(m, n);
      assert x == m + [x[|x| - 1]] && y == n + [y[|y| - 1]];
    }
  }

  lemma {:induction false} SextetsIsInjective(x: string, y: string)
    requires |x| == |y| && Sextets(x) == Sextets(y) && AllSymbols(x) && AllSymbols(y)
    ensures x == y
  {
    if x != [] {
      var m, n, a, b := x[..|x| - 1], y[..|y| - 1], x[|x| - 1], y[|y| - 1];
      SymbolOfValue(a);
      SymbolOfValue(b);
      assert Sextets(m) == Sextets(x) / 64 == Sextets(n);
      SextetsIsInjective(m, n);
      assert x == m + [a] && y == n + [b];
    }
  }

  // ---- What the meaning determines ----

  /** A text denotes at most one byte string. */
  lemma DenotesOneByteString(text: string, x: seq<Byte>, y: seq<Byte>)
    requires Denotes(text, x) && Denotes(text, y)
    ensures x == y
  {
    NumberIsInjective(x, y);
  }

  /** Among the canonical texts, a byte string has at most one. */
  lemma CanonicalTextIsUnique(s: string, t: string, bytes: seq<Byte>)
    requires Canonical(s) && Canonical(t) && Denotes(s, bytes) && Denotes(t, bytes)
    ensures s == t
  {
    assert |s| / 4 * 3 - Padding(s) == |t| / 4 * 3 - Padding(t);
    assert |s| == |t| && Padding(s) == Padding(t);
    SextetsIsInjective(Symbols(s), Symbols(t));
    PaddingSplit(s);
    PaddingSplit(t);
  }

  lemma PaddingSplit(text: string)
    ensures Padding(text) == 0 ==> text == Symbols(text)
    ensures Padding(text) == 1 ==> text == Symbols(text) + "="
    ensures Padding(text) == 2 ==> text == Symbols(text) + "=="
  {
  }

  lemma PaddedText(symbols: string, p: nat)
    requires AllSymbols(symbols) && p <= 2
    ensures var text := symbols + "=="[..p]; Padding(text) == p && Symbols(text) == symbols
  {
    var text := symbols + "=="[..p];
    assert Value('=') == -1;
    assert |symbols| > 0 ==> text[|symbols| - 1] == symbols[|symbols| - 1];
    assert p >= 1 ==> text[|text| - 1] == '=';
    assert p == 2 ==> text[|text| - 2] == '=';
    assert text[..|symbols|] == symbols;
  }

  ghost function Spare(p: nat): nat
    requires p <= 2
  {
    match p case 0 => 1 case 1 => 4 case _ => 16
  }

  /** What padding makes of symbols. */
  lemma PaddedDenotes(text: string, symbols: string, p: nat, bytes: seq<Byte>)
    requires AllSymbols(symbols) && p <= 2 && text == symbols + "=="[..p]
    requires |text| % 4 == 0 && |bytes| == |text| / 4 * 3 - p
    requires Number(bytes) == Sextets(symbols) / Spare(p)
    ensures WellFormed(text) && Denotes(text, bytes)
    ensures Canonical(text) <==> Sextets(symbols) % Spare(p) == 0
  {
    PaddedText(symbols, p);
    hide Number, Sextets, Value, Padding, AllSymbols;
  }

  // ---- The encoder ----

  method Encode(bytes: seq<Byte>) returns (out: string)
    ensures Canonical(out) && Denotes(out, bytes)
    ensures |out| == (|bytes| + 2) / 3 * 4
  {
    hide Symbol, Value, Canonical, Denotes;
    out := "";
    var i := 0;
    while i + 3 <= |bytes|
      invariant i % 3 == 0 && i <= |bytes|
      invariant Whole(out, bytes[..i])
    {
      var n: nat := bytes[i] as int * 65536 + bytes[i + 1] as int * 256 + bytes[i + 2];
      EncodedQuad(out, bytes, i);
      out := out + [Symbol(n / 262144 % 64)] + [Symbol(n / 4096 % 64)] + [Symbol(n / 64 % 64)] + [Symbol(n % 64)];
      i := i + 3;
    }
    assert i == |bytes| ==> bytes[..i] == bytes;
    EncodedTail(out, bytes, i);
    if i + 1 == |bytes| {
      var n: nat := bytes[i] as int * 65536;
      out := out + [Symbol(n / 262144 % 64)] + [Symbol(n / 4096 % 64)] + "==";
    } else if i + 2 == |bytes| {
      var n: nat := bytes[i] as int * 65536 + bytes[i + 1] as int * 256;
      out := out + [Symbol(n / 262144 % 64)] + [Symbol(n / 4096 % 64)] + [Symbol(n / 64 % 64)] + "=";
    }
  }

  /** Unpadded symbols that write exactly these bytes. */
  ghost predicate Whole(out: string, bytes: seq<Byte>) {
    |bytes| % 3 == 0 && |out| == |bytes| / 3 * 4 && AllSymbols(out) && Sextets(out) == Number(bytes)
  }

  lemma SplitTriple(n: nat)
    requires n < 16777216
    ensures n / 262144 % 64 * 262144 + n / 4096 % 64 * 4096 + n / 64 % 64 * 64 + n % 64 == n
  {
    assert n / 64 / 64 == n / 4096 && n / 4096 / 64 == n / 262144;
  }

  lemma SplitSingle(x: nat)
    requires x < 256
    ensures x * 65536 / 262144 % 64 == x / 4 && x * 65536 / 4096 % 64 == x % 4 * 16
  {
    assert x * 65536 / 4096 == x * 16;
  }

  lemma EncodedQuad(before: string, bytes: seq<Byte>, i: nat)
    requires i + 3 <= |bytes| && Whole(before, bytes[..i])
    ensures var n: nat := bytes[i] as int * 65536 + bytes[i + 1] as int * 256 + bytes[i + 2];
            Whole(before + [Symbol(n / 262144 % 64)] + [Symbol(n / 4096 % 64)] + [Symbol(n / 64 % 64)] + [Symbol(n % 64)],
                  bytes[..i + 3])
  {
    hide Symbol, Value, Number, Sextets;
    var n: nat := bytes[i] as int * 65536 + bytes[i + 1] as int * 256 + bytes[i + 2];
    var v, w, x, y := n / 262144 % 64, n / 4096 % 64, n / 64 % 64, n % 64;
    ValueOfSymbol(v);
    ValueOfSymbol(w);
    ValueOfSymbol(x);
    ValueOfSymbol(y);
    SextetsQuad(before, Symbol(v), Symbol(w), Symbol(x), Symbol(y));
    assert before + [Symbol(v)] + [Symbol(w)] + [Symbol(x)] + [Symbol(y)]
        == before + [Symbol(v), Symbol(w), Symbol(x), Symbol(y)];
    SplitTriple(n);
    NumberOfThree(bytes, i);
  }

  lemma NumberOfThree(bytes: seq<Byte>, i: nat)
    requires i + 3 <= |bytes|
    ensures Number(bytes[..i + 3])
         == Number(bytes[..i]) * 16777216 + bytes[i] as int * 65536 + bytes[i + 1] as int * 256 + bytes[i + 2]
  {
    NumberSnoc(bytes[..i], bytes[i]);
    NumberSnoc(bytes[..i + 1], bytes[i + 1]);
    NumberSnoc(bytes[..i + 2], bytes[i + 2]);
    assert bytes[..i] + [bytes[i]] == bytes[..i + 1];
    assert bytes[..i + 1] + [bytes[i + 1]] == bytes[..i + 2];
    assert bytes[..i + 2] + [bytes[i + 2]] == bytes[..i + 3];
  }

  /** The text of the bytes after the last whole group of three. */
  lemma EncodedTail(before: string, bytes: seq<Byte>, i: nat)
    requires i <= |bytes| < i + 3 && Whole(before, bytes[..i])
    ensures i == |bytes| ==> Canonical(before) && Denotes(before, bytes)
    ensures i + 1 == |bytes| ==>
              var n: nat := bytes[i] as int * 65536;
              var out := before + [Symbol(n / 262144 % 64)] + [Symbol(n / 4096 % 64)] + "==";
              Canonical(out) && Denotes(out, bytes)
    ensures i + 2 == |bytes| ==>
              var n: nat := bytes[i] as int * 65536 + bytes[i + 1] as int * 256;
              var out := before + [Symbol(n / 262144 % 64)] + [Symbol(n / 4096 % 64)] + [Symbol(n / 64 % 64)] + "=";
              Canonical(out) && Denotes(out, bytes)
  {
    hide *;
    if i == |bytes| {
      EncodedZero(before, bytes);
    } else if i + 1 == |bytes| {
      EncodedOne(before, bytes, i);
    } else {
      EncodedTwo(before, bytes, i);
    }
  }

  lemma EncodedZero(before: string, bytes: seq<Byte>)
    requires Whole(before, bytes[..|bytes|])
    ensures Canonical(before) && Denotes(before, bytes)
  {
    hide Symbol, Value, Number, Sextets, WellFormed, Denotes, Canonical;
    assert bytes[..|bytes|] == bytes;
    PaddedDenotes(before, before, 0, bytes);
  }

  lemma EncodedOne(before: string, bytes: seq<Byte>, i: nat)
    requires i + 1 == |bytes| && Whole(before, bytes[..i])
    ensures var n: nat := bytes[i] as int * 65536;
            var out := before + [Symbol(n / 262144 % 64)] + [Symbol(n / 4096 % 64)] + "==";
            Canonical(out) && Denotes(out, bytes)
  {
    hide Symbol, Value, Number, Sextets, WellFormed, Denotes, Canonical;
    var x: nat := bytes[i];
    var n: nat := x * 65536;
    var v, w := n / 262144 % 64, n / 4096 % 64;
    SplitSingle(x);
    ValueOfSymbol(v);
    ValueOfSymbol(w);
    var symbols := before + [Symbol(v), Symbol(w)];
    SextetsPair(before, Symbol(v), Symbol(w));
    NumberSnoc(bytes[..i], bytes[i]);
    assert bytes[..i] + [bytes[i]] == bytes;
    assert Sextets(symbols) == Number(bytes) * 16;
    PaddedDenotes(before + [Symbol(v)] + [Symbol(w)] + "==", symbols, 2, bytes);
  }

  lemma EncodedTwo(before: string, bytes: seq<Byte>, i: nat)
    requires i + 2 == |bytes| && Whole(before, bytes[..i])
    ensures var n: nat := bytes[i] as int * 65536 + bytes[i + 1] as int * 256;
            var out := before + [Symbol(n / 262144 % 64)] + [Symbol(n / 4096 % 64)] + [Symbol(n / 64 % 64)] + "=";
            Canonical(out) && Denotes(out, bytes)
  {
    hide Symbol, Value, Number, Sextets, WellFormed, Denotes, Canonical;
    var m: nat := bytes[i] as int * 256 + bytes[i + 1] as int;
    var n: nat := bytes[i] as int * 65536 + bytes[i + 1] as int * 256;
    var v, w, x := n / 262144 % 64, n / 4096 % 64, n / 64 % 64;
    SplitTriple(n);
    assert n % 64 == 0;
    ValueOfSymbol(v);
    ValueOfSymbol(w);
    ValueOfSymbol(x);
    var symbols := before + [Symbol(v), Symbol(w), Symbol(x)];
    SextetsTriple(before, Symbol(v), Symbol(w), Symbol(x));
    NumberSnoc(bytes[..i], bytes[i]);
    NumberSnoc(bytes[..i] + [bytes[i]], bytes[i + 1]);
    assert bytes[..i] + [bytes[i]] + [bytes[i + 1]] == bytes;
    assert Sextets(symbols) == Number(bytes) * 4;
    PaddedDenotes(before + [Symbol(v)] + [Symbol(w)] + [Symbol(x)] + "=", symbols, 1, bytes);
  }

  // ---- The decoder ----

  method Decode(text: string) returns (r: Option<seq<Byte>>)
    ensures r.Some? <==> WellFormed(text)
    ensures r.Some? ==> Denotes(text, r.value)
  {
    hide Value, Number, Sextets, Symbols, Padding, WellFormed, Denotes, AllSymbols;
    if |text| % 4 != 0 {
      NotInFours(text);
      return None;
    }
    var out: seq<Byte> := [];
    var i := 0;
    DecodedNothing(text);
    while i < |text|
      invariant i % 4 == 0 && i <= |text|
      invariant i < |text| ==> Whole(text[..i], out)
      invariant i == |text| ==> WellFormed(text) && Denotes(text, out)
    {
      var a, b := Value(text[i]), Value(text[i + 1]);
      var pad2, pad3 := text[i + 2] == '=', text[i + 3] == '=';
      var c := if pad2 then 0 else Value(text[i + 2]);
      var d := if pad3 then 0 else Value(text[i + 3]);
      if a < 0 || b < 0 || c < 0 || d < 0 || (pad2 && !pad3) || ((pad2 || pad3) && i + 4 != |text|) {
        BadGroup(text, i);
        return None;
      }
      GoodGroup(text, i, out);
      ghost var after := out + GroupBytes(text, i);
      var n := a * 262144 + b * 4096 + c * 64 + d;
      out := out + [n / 65536 % 256];
      if !pad2 {
        out := out + [n / 256 % 256];
      }
      if !pad3 {
        out := out + [n % 256];
      }
      assert out == after;
      i := i + 4;
    }
    r := Some(out);
  }

  /** The decoder's test of one group of four. */
  ghost predicate GroupAccepted(text: string, i: nat)
    requires i + 4 <= |text|
  {
    var pad2, pad3 := text[i + 2] == '=', text[i + 3] == '=';
    && Value(text[i]) >= 0 && Value(text[i + 1]) >= 0
    && (pad2 || Value(text[i + 2]) >= 0) && (pad3 || Value(text[i + 3]) >= 0)
    && (pad2 ==> pad3) && (pad3 ==> i + 4 == |text|)
  }

  /** The bytes of one accepted group: three, less one for each padding character. */
  ghost function GroupBytes(text: string, i: nat): seq<Byte>
    requires i + 4 <= |text| && GroupAccepted(text, i)
  {
    var pad2, pad3 := text[i + 2] == '=', text[i + 3] == '=';
    var c := if pad2 then 0 else Value(text[i + 2]);
    var d := if pad3 then 0 else Value(text[i + 3]);
    var n := Value(text[i]) * 262144 + Value(text[i + 1]) * 4096 + c * 64 + d;
    [n / 65536 % 256] + (if pad2 then [] else [n / 256 % 256]) + (if pad3 then [] else [n % 256])
  }

  lemma NotInFours(text: string)
    requires |text| % 4 != 0
    ensures !WellFormed(text)
  {
  }

  lemma DecodedNothing(text: string)
    ensures Whole(text[..0], [])
    ensures text == "" ==> WellFormed(text) && Denotes(text, [])
  {
  }

  /** A group that fails the test spoils the whole text. */
  lemma BadGroup(text: string, i: nat)
    requires i + 4 <= |text| && |text| % 4 == 0 && i % 4 == 0 && !GroupAccepted(text, i)
    ensures !WellFormed(text)
  {
    var symbols := Symbols(text);
    assert Value('=') == -1;
    hide Value;
    assert forall k :: 0 <= k < |symbols| ==> symbols[k] == text[k];
  }

  /** A group that passes continues the symbols, or ends the text with padding. */
  lemma GoodGroup(text: string, i: nat, out: seq<Byte>)
    requires i + 4 <= |text| && |text| % 4 == 0 && i % 4 == 0 && GroupAccepted(text, i) && Whole(text[..i], out)
    ensures i + 4 < |text| ==> Whole(text[..i + 4], out + GroupBytes(text, i))
    ensures i + 4 == |text| ==> WellFormed(text) && Denotes(text, out + GroupBytes(text, i))
  {
    hide Value, Number, Sextets, Padding, Symbols, WellFormed, Denotes, GroupBytes, Whole;
    if text[i + 3] != '=' {
      GroupOfThree(text, i, out);
    } else if text[i + 2] != '=' {
      GroupOfTwo(text, i, out);
    } else {
      GroupOfOne(text, i, out);
    }
  }

  lemma ValueIsSextet(c: char)
    ensures Value(c) < 64 && Value('=') == -1
  {
  }

  lemma BytesOfTriple(n: nat)
    requires n < 16777216
    ensures n / 65536 < 256 && n / 65536 * 65536 + n / 256 % 256 * 256 + n % 256 == n
  {
    assert n / 256 / 256 == n / 65536;
  }

  ghost function TripleBytes(n: nat): seq<Byte> {
    [n / 65536 % 256, n / 256 % 256, n % 256]
  }

  lemma NumberWithThree(out: seq<Byte>, n: nat)
    requires n < 16777216
    ensures Number(out + TripleBytes(n)) == Number(out) * 16777216 + n
  {
    hide Number;
    BytesOfTriple(n);
    var x: Byte, y: Byte, z: Byte := n / 65536 % 256, n / 256 % 256, n % 256;
    NumberSnoc(out, x);
    NumberSnoc(out + [x], y);
    NumberSnoc(out + [x] + [y], z);
    assert out + TripleBytes(n) == out + [x] + [y] + [z];
  }

  lemma NumberWithTwo(out: seq<Byte>, n: nat)
    requires n < 16777216
    ensures Number(out + TripleBytes(n)[..2]) == Number(out) * 65536 + n / 256
  {
    hide Number;
    BytesOfTriple(n);
    var x: Byte, y: Byte := n / 65536 % 256, n / 256 % 256;
    NumberSnoc(out, x);
    NumberSnoc(out + [x], y);
    assert out + TripleBytes(n)[..2] == out + [x] + [y];
  }

  lemma GroupOfThree(text: string, i: nat, out: seq<Byte>)
    requires i + 4 <= |text| && |text| % 4 == 0 && i % 4 == 0 && GroupAccepted(text, i) && Whole(text[..i], out)
    requires text[i + 3] != '='
    ensures Whole(text[..i + 4], out + GroupBytes(text, i))
    ensures i + 4 == |text| ==> WellFormed(text) && Denotes(text, out + GroupBytes(text, i))
  {
    hide Value, Number, Sextets;
    var before, a, b, c, d := text[..i], text[i], text[i + 1], text[i + 2], text[i + 3];
    ValueIsSextet(a);
    ValueIsSextet(b);
    ValueIsSextet(c);
    ValueIsSextet(d);
    var n: nat := Value(a) * 262144 + Value(b) * 4096 + Value(c) * 64 + Value(d);
    SextetsQuad(before, a, b, c, d);
    assert before + [a, b, c, d] == text[..i + 4];
    NumberWithThree(out, n);
    assert GroupBytes(text, i) == TripleBytes(n);
    hide GroupBytes, TripleBytes, GroupAccepted;
    if i + 4 == |text| {
      assert text[..i + 4] + "=="[..0] == text;
      PaddedDenotes(text, text[..i + 4], 0, out + GroupBytes(text, i));
    }
  }

  lemma GroupOfTwo(text: string, i: nat, out: seq<Byte>)
    requires i + 4 == |text| && i % 4 == 0 && GroupAccepted(text, i) && Whole(text[..i], out)
    requires text[i + 3] == '=' && text[i + 2] != '='
    ensures WellFormed(text) && Denotes(text, out + GroupBytes(text, i))
  {
    hide Value, Number, Sextets, Padding;
    var before, a, b, c := text[..i], text[i], text[i + 1], text[i + 2];
    ValueIsSextet(a);
    ValueIsSextet(b);
    ValueIsSextet(c);
    var n: nat := Value(a) * 262144 + Value(b) * 4096 + Value(c) * 64;
    SextetsTriple(before, a, b, c);
    NumberWithTwo(out, n);
    assert GroupBytes(text, i) == TripleBytes(n)[..2];
    assert before + [a, b, c] + "=="[..1] == text;
    hide GroupBytes, GroupAccepted, WellFormed, Denotes;
    PaddedDenotes(text, before + [a, b, c], 1, out + GroupBytes(text, i));
  }

  lemma GroupOfOne(text: string, i: nat, out: seq<Byte>)
    requires i + 4 == |text| && i % 4 == 0 && GroupAccepted(text, i) && Whole(text[..i], out)
    requires text[i + 3] == '=' && text[i + 2] == '='
    ensures WellFormed(text) && Denotes(text, out + GroupBytes(text, i))
  {
    hide Value, Number, Sextets, Padding;
    var before, a, b := text[..i], text[i], text[i + 1];
    ValueIsSextet(a);
    ValueIsSextet(b);
    var n := Value(a) * 262144 + Value(b) * 4096;
    BytesOfTriple(n);
    SextetsPair(before, a, b);
    var x: Byte := n / 65536;
    NumberSnoc(out, x);
    assert GroupBytes(text, i) == [x];
    assert before + [a, b] + "=="[..2] == text;
    hide GroupBytes, GroupAccepted, WellFormed, Denotes;
    PaddedDenotes(text, before + [a, b], 2, out + GroupBytes(text, i));
  }

  // ---- Round trips ----

  /** Decoding what was encoded gives the bytes back, for every byte string. */
  method EncodeThenDecode(bytes: seq<Byte>) returns (r: Option<seq<Byte>>)
    ensures r == Some(bytes)
  {
    var text := Encode(bytes);
    r := Decode(text);
    DenotesOneByteString(text, r.value, bytes);
  }

  /** Encoding what was decoded gives the text back exactly when its spare bits are zero. */
  method DecodeThenEncode(text: string) returns (r: Option<string>)
    ensures r.Some? <==> WellFormed(text)
    ensures r == Some(text) <==> Canonical(text)
  {
    var bytes := Decode(text);
    if bytes == None {
      return None;
    }
    var again := Encode(bytes.value);
    if Canonical(text) {
      CanonicalTextIsUnique(text, again, bytes.value);
    }
    r := Some(again);
  }

  /** The decoder accepts more than the encoder writes: "QQ==" and "QR==" are both the byte 65. */
  lemma DecoderAcceptsSpareBits()
    ensures Denotes("QQ==", [65]) && Denotes("QR==", [65])
    ensures Canonical("QQ==") && !Canonical("QR==")
  {
    assert Symbols("QQ==") == "QQ" && Symbols("QR==") == "QR";
    SextetsPair("", 'Q', 'Q');
    SextetsPair("", 'Q', 'R');
    assert "" + ['Q', 'Q'] == "QQ" && "" + ['Q', 'R'] == "QR";
    NumberSnoc([], 65);
    assert [] + [65] == [65];
  }
}
