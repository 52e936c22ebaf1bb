/** The base64 helpers (pkg/util/strings.go, pkg/util/template.go).  The alphabets and the padding rule
    are those of sections 4 and 5 of RFC 4648; the decoder is the lenient one of Go's encoding/base64:
    line breaks are skipped everywhere and the unused low bits of the last character are ignored. */
module Base64 {
  import opened Wrappers

  type Byte = b: int | 0 <= b < 256
  type Sextet = v: int | 0 <= v < 64

  datatype Encoding = StdEncoding | RawURLEncoding

  function CharOf(e: Encoding, v: Sextet): char {
    if v < 26 then 'A' + v as char
    else if v < 52 then 'a' + (v - 26) as char
    else if v < 62 then '0' + (v - 52) as char
    else if e.StdEncoding? then (if v == 62 then '+' else '/')
    else (if v == 62 then '-' else '_')
  }

  predicate InAlphabet(e: Encoding, c: char) {
    || 'A' <= c <= 'Z' || 'a' <= c <= 'z' || '0' <= c <= '9'
    || (if e.StdEncoding? then c == '+' || c == '/' else c == '-' || c == '_')
  }

  function ValueOf(e: Encoding, c: char): Sextet
    requires InAlphabet(e, c)
  {
    if 'A' <= c <= 'Z' then (c - 'A') as int
    else if 'a' <= c <= 'z' then (c - 'a') as int + 26
    else if '0' <= c <= '9' then (c - '0') as int + 52
    else if c == '+' || c == '-' then 62
    else 63
  }

  predicate AllInAlphabet(e: Encoding, s: string) {
    forall i :: 0 <= i < |s| ==> InAlphabet(e, s[i])
  }

  lemma CharRoundTrip(e: Encoding, v: Sextet)
    ensures InAlphabet(e, CharOf(e, v)) && ValueOf(e, CharOf(e, v)) == v
  {
  }

  lemma ValueRoundTrip(e: Encoding, c: char)
    requires InAlphabet(e, c)
    ensures CharOf(e, ValueOf(e, c)) == c
  {
  }

  function Chars(e: Encoding, vs: seq<Sextet>): string {
    seq(|vs|, i requires 0 <= i < |vs| => CharOf(e, vs[i]))
  }

  function Values(e: Encoding, s: string): seq<Sextet>
    requires AllInAlphabet(e, s)
  {
    seq(|s|, i requires 0 <= i < |s| => ValueOf(e, s[i]))
  }

  lemma ValuesOfChars(e: Encoding, vs: seq<Sextet>)
    ensures AllInAlphabet(e, Chars(e, vs)) && Values(e, Chars(e, vs)) == vs
  {
    forall i | 0 <= i < |vs| ensures InAlphabet(e, Chars(e, vs)[i]) && ValueOf(e, Chars(e, vs)[i]) == vs[i] {
      CharRoundTrip(e, vs[i]);
    }
  }

  lemma CharsOfValues(e: Encoding, s: string)
    requires AllInAlphabet(e, s)
    ensures Chars(e, Values(e, s)) == s
  {
    forall i | 0 <= i < |s| ensures CharOf(e, ValueOf(e, s[i])) == s[i] {
      ValueRoundTrip(e, s[i]);
    }
  }

  function Pad(e: Encoding, n: nat): string {
    if e.RawURLEncoding? then "" else seq(n, _ => '=')
  }

  /** Three bytes as four sextets, and back. */
  function Sextets(a: Byte, b: Byte, c: Byte): (vs: seq<Sextet>)
    ensures |vs| == 4
  {
    [a / 4, a % 4 * 16 + b / 16, b % 16 * 4 + c / 64, c % 64]
  }

  /** The bytes of two to four sextets; with fewer than four the low bits are dropped. */
  function Bytes(vs: seq<Sextet>): (bs: seq<Byte>)
    requires 2 <= |vs| <= 4
    ensures |bs| == |vs| - 1
  {
    var v0: int := vs[0];
    var v1: int := vs[1];
    if |vs| == 2 then [v0 * 4 + v1 / 16]
    else
      var v2: int := vs[2];
      if |vs| == 3 then [v0 * 4 + v1 / 16, v1 % 16 * 16 + v2 / 4]
      else [v0 * 4 + v1 / 16, v1 % 16 * 16 + v2 / 4, v2 % 4 * 64 + vs[3]]
  }

  lemma DivMod(q: int, r: int, k: int)
    requires k == 4 || k == 16 || k == 64
    requires 0 <= r < k
    ensures (q * k + r) / k == q && (q * k + r) % k == r
  {
    if k == 4 {
      assert (q * 4 + r) / 4 == q;
    } else if k == 16 {
      assert (q * 16 + r) / 16 == q;
    } else {
      assert (q * 64 + r) / 64 == q;
    }
  }

  lemma BytesOfSextets(a: Byte, b: Byte, c: Byte)
    ensures var vs := Sextets(a, b, c);
            && Bytes(vs) == [a, b, c]
            && Bytes(vs[..3]) == [a, b]
            && Bytes(vs[..2]) == [a]
  {
    var vs := Sextets(a, b, c);
    DivMod(a % 4, b / 16, 16);
    var v0: int, v1: int, v2: int, v3: int := vs[0], vs[1], vs[2], vs[3];
    assert v0 * 4 + v1 / 16 == a / 4 * 4 + a % 4 == a;
    DivMod(b % 16, c / 64, 4);
    assert v1 % 16 * 16 + v2 / 4 == b / 16 * 16 + b % 16 == b;
    assert v2 % 4 * 64 + v3 == c / 64 * 64 + c % 64 == c;
  }

  function Low(vs: seq<Sextet>): int
    requires |vs| > 0
  {
    if |vs| == 2 then vs[1] % 16 else if |vs| == 3 then vs[2] % 4 else 0
  }

  /** Going back to sextets loses exactly the low bits of a short group. */
  lemma SextetsOfBytes(vs: seq<Sextet>)
    requires 2 <= |vs| <= 4
    ensures var bs := Bytes(vs) + [0, 0];
            Sextets(bs[0], bs[1], bs[2])[..|vs|] == vs <==> Low(vs) == 0
  {
    var bs := Bytes(vs) + [0, 0];
    var ws := Sextets(bs[0], bs[1], bs[2]);
    DivMod(vs[0], vs[1] / 16, 4);
    if |vs| > 2 { DivMod(vs[1] % 16, vs[2] / 4, 16); }
    if |vs| > 3 { DivMod(vs[2] % 4, vs[3], 64); }
    assert ws[..|vs|] == vs <==> ws[|vs| - 1] == vs[|vs| - 1];
  }

  function EncodeToString(e: Encoding, bs: seq<Byte>): string {
    match |bs|
    case 0 => ""
    case 1 => Chars(e, Sextets(bs[0], 0, 0)[..2]) + Pad(e, 2)
    case 2 => Chars(e, Sextets(bs[0], bs[1], 0)[..3]) + Pad(e, 1)
    case _ => Chars(e, Sextets(bs[0], bs[1], bs[2])) + EncodeToString(e, bs[3..])
  }

  function StripNewlines(s: string): string {
    if s == "" then ""
    else if s[0] == '\r' || s[0] == '\n' then StripNewlines(s[1..])
    else [s[0]] + StripNewlines(s[1..])
  }

  /** The last, possibly short, quantum; None is Go's CorruptInputError. */
  function DecodeLast(e: Encoding, s: string): Option<seq<Byte>> {
    var body :=
      if e.RawURLEncoding? || |s| != 4 then s
      else if s[2..] == "==" then s[..2]
      else if s[3] == '=' then s[..3]
      else s;
    if 2 <= |body| <= 3 && AllInAlphabet(e, body) && (e.StdEncoding? ==> |s| == 4)
    then Some(Bytes(Values(e, body)))
    else None
  }

  function DecodeQuanta(e: Encoding, s: string): Option<seq<Byte>> {
    if s == "" then Some([])
    else if |s| >= 4 && AllInAlphabet(e, s[..4]) then
      match DecodeQuanta(e, s[4..])
      case None => None
      case Some(rest) => Some(Bytes(Values(e, s[..4])) + rest)
    else DecodeLast(e, s)
  }

  function DecodeString(e: Encoding, s: string): Option<seq<Byte>> {
    DecodeQuanta(e, StripNewlines(s))
  }

  // The four helpers the repository builds from these.

  function URL64encode(v: seq<Byte>): string { EncodeToString(RawURLEncoding, v) }

  /** Malformed input yields the empty string. */
  function URL64decode(v: string): seq<Byte> {
    match DecodeString(RawURLEncoding, v)
    case Some(data) => data
    case None => []
  }

  function Base64encode(v: seq<Byte>): string { EncodeToString(StdEncoding, v) }

  /** The template helper: on malformed input it returns the text of the decoder's error. */
  function Base64decode(v: string, errorText: seq<Byte>): seq<Byte> {
    match DecodeString(StdEncoding, v)
    case Some(data) => data
    case None => errorText
  }

  // Encoding.

  function AllSextets(bs: seq<Byte>): (vs: seq<Sextet>)
    ensures |vs| == (|bs| * 4 + 2) / 3
  {
    match |bs|
    case 0 => []
    case 1 => Sextets(bs[0], 0, 0)[..2]
    case 2 => Sextets(bs[0], bs[1], 0)[..3]
    case _ => Sextets(bs[0], bs[1], bs[2]) + AllSextets(bs[3..])
  }

  /** Shape of the output: one digit per started six bits, then padding to a multiple of four,
      which RawURLEncoding leaves out. */
  lemma {:induction false} EncodedShape(e: Encoding, bs: seq<Byte>)
    ensures EncodeToString(e, bs) == Chars(e, AllSextets(bs)) + Pad(e, (3 - |bs| % 3) % 3)
  {
    if |bs| < 3 {
      ShortShape(e, bs);
    } else {
      var q, rest := Sextets(bs[0], bs[1], bs[2]), bs[3..];
      EncodedShape(e, rest);
      assert |rest| % 3 == |bs| % 3;
      CharsOfConcat(e, q, AllSextets(rest), Pad(e, (3 - |rest| % 3) % 3));
      assert EncodeToString(e, bs) == Chars(e, q) + EncodeToString(e, rest);
      assert AllSextets(bs) == q + AllSextets(rest);
    }
  }

  lemma ShortShape(e: Encoding, bs: seq<Byte>)
    requires |bs| < 3
    ensures EncodeToString(e, bs) == Chars(e, AllSextets(bs)) + Pad(e, (3 - |bs|) % 3)
  {
  }

  lemma CharsOfConcat(e: Encoding, a: seq<Sextet>, b: seq<Sextet>, tail: string)
    ensures Chars(e, a + b) + tail == Chars(e, a) + (Chars(e, b) + tail)
  {
  }

  /** The alphabets of tables 1 and 2 of RFC 4648: letters, digits, and two characters more. */
  lemma Alphabets(e: Encoding, v: Sextet)
    ensures 0 <= v <= 25 ==> CharOf(e, v) == 'A' + v as char
    ensures 26 <= v <= 51 ==> CharOf(e, v) == 'a' + (v - 26) as char
    ensures 52 <= v <= 61 ==> CharOf(e, v) == '0' + (v - 52) as char
    ensures CharOf(StdEncoding, 62) == '+' && CharOf(StdEncoding, 63) == '/'
    ensures CharOf(RawURLEncoding, 62) == '-' && CharOf(RawURLEncoding, 63) == '_'
  {
  }

  /** A number in base 64, written with k digits. */
  function Written(e: Encoding, number: nat, k: nat): string {
    if k == 0 then "" else Written(e, number / 64, k - 1) + [CharOf(e, number % 64)]
  }

  /** The number that the sextets are the digits of. */
  function Number(vs: seq<Sextet>): nat {
    if vs == [] then 0 else Number(vs[..|vs| - 1]) * 64 + vs[|vs| - 1]
  }

  lemma {:induction false} CharsAreDigits(e: Encoding, vs: seq<Sextet>)
    ensures Chars(e, vs) == Written(e, Number(vs), |vs|)
  {
    if vs != [] {
      var n := |vs| - 1;
      CharsAreDigits(e, vs[..n]);
      DivMod(Number(vs[..n]), vs[n], 64);
      assert Chars(e, vs) == Chars(e, vs[..n]) + [CharOf(e, vs[n])];
    }
  }

  lemma NumberOfSextets(a: Byte, b: Byte, c: Byte)
    ensures var vs := Sextets(a, b, c);
            && Number(vs[..2]) == a * 16 + b / 16
            && Number(vs[..3]) == a * 1024 + b * 4 + c / 64
            && Number(vs) == a * 65536 + b * 256 + c
  {
    var vs := Sextets(a, b, c);
    assert vs[..3][..2] == vs[..2] && vs[..2][..1] == vs[..1] && vs[..1][..0] == [];
    assert Number(vs[..1]) == a / 4;
    assert Number(vs[..2]) == a / 4 * 64 + (a % 4 * 16 + b / 16) == a * 16 + b / 16;
    assert Number(vs[..3]) == (a * 16 + b / 16) * 64 + (b % 16 * 4 + c / 64) == a * 1024 + b * 4 + c / 64;
  }

  /** Section 4 of RFC 4648: three bytes are one number of 24 bits, which is written with four digits. */
  lemma EncodedQuantum(e: Encoding, a: Byte, b: Byte, c: Byte)
    ensures EncodeToString(e, [a, b, c]) == Written(e, a * 65536 + b * 256 + c, 4)
  {
    NumberOfSextets(a, b, c);
    CharsAreDigits(e, Sextets(a, b, c));
    assert [a, b, c][3..] == [];
    assert EncodeToString(e, [a, b, c]) == Chars(e, Sextets(a, b, c)) + "";
  }

  /** Two bytes at the end, or one, are filled up with zero bits to three digits, or two; then comes the padding. */
  lemma EncodedPair(e: Encoding, a: Byte, b: Byte)
    ensures EncodeToString(e, [a, b]) == Written(e, a * 1024 + b * 4, 3) + if e.StdEncoding? then "=" else ""
  {
    PairIsChars(e, a, b);
    DigitsOfPair(e, a, b);
  }

  lemma PairIsChars(e: Encoding, a: Byte, b: Byte)
    ensures EncodeToString(e, [a, b]) == Chars(e, Sextets(a, b, 0)[..3]) + if e.StdEncoding? then "=" else ""
  {
    assert Pad(e, 1) == if e.StdEncoding? then "=" else "";
  }

  lemma DigitsOfPair(e: Encoding, a: Byte, b: Byte)
    ensures Chars(e, Sextets(a, b, 0)[..3]) == Written(e, a * 1024 + b * 4, 3)
  {
    var vs := Sextets(a, b, 0)[..3];
    NumberOfSextets(a, b, 0);
    assert Number(vs) == a * 1024 + b * 4;
    CharsAreDigits(e, vs);
  }

  lemma EncodedSingle(e: Encoding, a: Byte)
    ensures EncodeToString(e, [a]) == Written(e, a * 16, 2) + if e.StdEncoding? then "==" else ""
  {
    SingleIsChars(e, a);
    DigitsOfSingle(e, a);
  }

  lemma SingleIsChars(e: Encoding, a: Byte)
    ensures EncodeToString(e, [a]) == Chars(e, Sextets(a, 0, 0)[..2]) + if e.StdEncoding? then "==" else ""
  {
    assert Pad(e, 2) == if e.StdEncoding? then "==" else "";
  }

  lemma DigitsOfSingle(e: Encoding, a: Byte)
    ensures Chars(e, Sextets(a, 0, 0)[..2]) == Written(e, a * 16, 2)
  {
    var vs := Sextets(a, 0, 0)[..2];
    NumberOfSextets(a, 0, 0);
    assert Number(vs) == a * 16;
    CharsAreDigits(e, vs);
  }

  /** Quantum by quantum. */
  lemma {:induction false} EncodingOfConcatenation(e: Encoding, a: seq<Byte>, b: seq<Byte>)
    requires |a| % 3 == 0
    ensures EncodeToString(e, a + b) == EncodeToString(e, a) + EncodeToString(e, b)
  {
    if a == [] {
      assert a + b == b;
    } else {
      assert (a + b)[3..] == a[3..] + b;
      EncodingOfConcatenation(e, a[3..], b);
    }
  }

  /** The URL-safe form of n bytes is exactly ceil(4n/3) characters, all from the URL-safe alphabet. */
  lemma URL64encodeIsURLSafe(v: seq<Byte>)
    ensures var s := URL64encode(v);
            && 3 * |s| >= 4 * |v| > 3 * (|s| - 1)
            && forall i :: 0 <= i < |s| ==>
                 'A' <= s[i] <= 'Z' || 'a' <= s[i] <= 'z' || '0' <= s[i] <= '9' || s[i] == '-' || s[i] == '_'
  {
    EncodedShape(RawURLEncoding, v);
    ValuesOfChars(RawURLEncoding, AllSextets(v));
    assert forall i :: 0 <= i < |URL64encode(v)| ==> InAlphabet(RawURLEncoding, URL64encode(v)[i]);
  }

  lemma NoNewlinesInOutput(e: Encoding, bs: seq<Byte>)
    ensures '\r' !in EncodeToString(e, bs) && '\n' !in EncodeToString(e, bs)
  {
    EncodedShape(e, bs);
    ValuesOfChars(e, AllSextets(bs));
    var d := Chars(e, AllSextets(bs));
    assert forall i :: 0 <= i < |d| ==> InAlphabet(e, d[i]);
  }

  lemma {:induction false} StripIsIdentity(s: string)
    ensures StripNewlines(s) == s <==> '\r' !in s && '\n' !in s
    ensures |StripNewlines(s)| <= |s|
  {
    if s != "" {
      StripIsIdentity(s[1..]);
      assert s == [s[0]] + s[1..];
    }
  }

  lemma {:induction false} QuantaRoundTrip(e: Encoding, bs: seq<Byte>)
    ensures DecodeQuanta(e, EncodeToString(e, bs)) == Some(bs)
  {
    if |bs| == 1 {
      BytesOfSextets(bs[0], 0, 0);
      ShortRoundTrip(e, Sextets(bs[0], 0, 0)[..2]);
      assert bs == [bs[0]];
    } else if |bs| == 2 {
      BytesOfSextets(bs[0], bs[1], 0);
      ShortRoundTrip(e, Sextets(bs[0], bs[1], 0)[..3]);
      assert bs == [bs[0], bs[1]];
    } else if |bs| > 2 {
      var vs := Sextets(bs[0], bs[1], bs[2]);
      BytesOfSextets(bs[0], bs[1], bs[2]);
      ValuesOfChars(e, vs);
      QuantaRoundTrip(e, bs[3..]);
      DecodeAfterQuantum(e, Chars(e, vs), EncodeToString(e, bs[3..]));
      assert bs == [bs[0], bs[1], bs[2]] + bs[3..];
    }
  }

  lemma DecodeAfterQuantum(e: Encoding, q: string, rest: string)
    requires |q| == 4 && AllInAlphabet(e, q) && DecodeQuanta(e, rest).Some?
    ensures DecodeQuanta(e, q + rest) == Some(Bytes(Values(e, q)) + DecodeQuanta(e, rest).value)
  {
    assert (q + rest)[..4] == q && (q + rest)[4..] == rest;
  }

  lemma ShortRoundTrip(e: Encoding, vs: seq<Sextet>)
    requires 2 <= |vs| <= 3
    ensures DecodeQuanta(e, Chars(e, vs) + Pad(e, 4 - |vs|)) == Some(Bytes(vs))
  {
    var d := Chars(e, vs);
    var s := d + Pad(e, 4 - |vs|);
    ValuesOfChars(e, vs);
    assert s[..|vs|] == d;
    assert forall i :: 0 <= i < |vs| ==> InAlphabet(e, s[i]);
    assert s[|vs| - 1] == d[|vs| - 1];
    assert e.StdEncoding? ==> s[..4][3] == '=' && s[2..][0] == s[2];
    assert e.StdEncoding? && |vs| == 2 ==> s[2..] == "==";
    assert DecodeQuanta(e, s) == DecodeLast(e, s);
  }

  /** Decoding undoes encoding on every byte string, in both encodings. */
  lemma RoundTrip(e: Encoding, bs: seq<Byte>)
    ensures DecodeString(e, EncodeToString(e, bs)) == Some(bs)
  {
    NoNewlinesInOutput(e, bs);
    StripIsIdentity(EncodeToString(e, bs));
    QuantaRoundTrip(e, bs);
  }

  lemma HelpersRoundTrip(v: seq<Byte>, errorText: seq<Byte>)
    ensures URL64decode(URL64encode(v)) == v
    ensures Base64decode(Base64encode(v), errorText) == v
  {
    RoundTrip(RawURLEncoding, v);
    RoundTrip(StdEncoding, v);
  }

  lemma EncodingIsInjective(e: Encoding, a: seq<Byte>, b: seq<Byte>)
    ensures EncodeToString(e, a) == EncodeToString(e, b) <==> a == b
  {
    RoundTrip(e, a);
    RoundTrip(e, b);
  }

  // Decoding.

  /** The text without its trailing padding characters. */
  function Unpadded(s: string): (r: string)
    ensures r <= s
    ensures forall i :: |r| <= i < |s| ==> s[i] == '='
    ensures r != "" ==> r[|r| - 1] != '='
  {
    if s != "" && s[|s| - 1] == '=' then Unpadded(s[..|s| - 1]) else s
  }

  /** A text without its padding, if the encoding pads. */
  function Digits(e: Encoding, s: string): string {
    if e.RawURLEncoding? then s else Unpadded(s)
  }

  /** What the decoder accepts once line breaks are gone. */
  predicate WellFormed(e: Encoding, s: string) {
    var d := Digits(e, s);
    && AllInAlphabet(e, d)
    && (if e.RawURLEncoding? then |s| % 4 != 1 else |s| % 4 == 0 && |s| - |d| <= 2)
  }

  /** The bits of the last digit that the decoder throws away. */
  function DroppedBits(e: Encoding, d: string): int
    requires AllInAlphabet(e, d)
  {
    var last := |d| - |d| % 4;
    if last == |d| then 0 else Low(Values(e, d[last..]))
  }

  lemma UnpaddedUnique(s: string, r: string)
    requires r <= s && (forall i :: |r| <= i < |s| ==> s[i] == '=') && (r != "" ==> r[|r| - 1] != '=')
    ensures Unpadded(s) == r
  {
    var u := Unpadded(s);
    assert u == s[..|u|] && r == s[..|r|];
    assert forall i :: |u| <= i < |s| || |r| <= i < |s| ==> s[i] == '=';
  }

  /** The decoder succeeds on exactly the well-formed texts, and re-encoding gives the text back exactly
      when no bits were dropped. */
  lemma {:induction false} DecodeQuantaExact(e: Encoding, s: string)
    ensures DecodeQuanta(e, s).Some? <==> WellFormed(e, s)
    ensures DecodeQuanta(e, s).Some? ==>
              (EncodeToString(e, DecodeQuanta(e, s).value) == s <==> DroppedBits(e, Digits(e, s)) == 0)
  {
    if |s| >= 4 && AllInAlphabet(e, s[..4]) {
      assert s == s[..4] + s[4..];
      DecodeQuantaExact(e, s[4..]);
      FirstQuantumIsFree(e, s[..4], s[4..]);
      if WellFormed(e, s) {
        FirstQuantumDropsNothing(e, s[..4], s[4..]);
        EncodeAfterQuantum(e, s[..4], DecodeQuanta(e, s[4..]).value);
      }
    } else {
      DecodeLastExact(e, s);
    }
  }

  /** A leading full quantum affects neither well-formedness nor the dropped bits. */
  lemma FirstQuantumIsFree(e: Encoding, q: string, t: string)
    requires |q| == 4 && AllInAlphabet(e, q)
    ensures WellFormed(e, q + t) <==> WellFormed(e, t)
  {
    DigitsAfterQuantum(e, q, t);
    AlphabetOfConcat(e, q, Digits(e, t));
  }

  lemma FirstQuantumDropsNothing(e: Encoding, q: string, t: string)
    requires |q| == 4 && AllInAlphabet(e, q) && AllInAlphabet(e, Digits(e, t)) && AllInAlphabet(e, Digits(e, q + t))
    ensures DroppedBits(e, Digits(e, q + t)) == DroppedBits(e, Digits(e, t))
  {
    DigitsAfterQuantum(e, q, t);
    DroppedBitsOfConcat(e, q, Digits(e, t));
  }

  lemma DigitsAfterQuantum(e: Encoding, q: string, t: string)
    requires |q| == 4 && AllInAlphabet(e, q)
    ensures Digits(e, q + t) == q + Digits(e, t)
  {
    assert InAlphabet(e, q[3]);
    if e.StdEncoding? { UnpaddedUnique(q + t, q + Unpadded(t)); }
  }

  lemma AlphabetOfConcat(e: Encoding, a: string, b: string)
    ensures AllInAlphabet(e, a + b) <==> AllInAlphabet(e, a) && AllInAlphabet(e, b)
  {
    var s := a + b;
    assert forall i :: 0 <= i < |a| ==> a[i] == s[i];
    assert forall i :: 0 <= i < |b| ==> b[i] == s[i + |a|];
  }

  lemma DroppedBitsOfConcat(e: Encoding, q: string, t: string)
    requires |q| == 4 && AllInAlphabet(e, t) && AllInAlphabet(e, q + t)
    ensures DroppedBits(e, q + t) == DroppedBits(e, t)
  {
    assert (q + t)[|q + t| - |t| % 4..] == t[|t| - |t| % 4..];
  }

  lemma EncodeAfterQuantum(e: Encoding, q: string, rest: seq<Byte>)
    requires |q| == 4 && AllInAlphabet(e, q)
    ensures EncodeToString(e, Bytes(Values(e, q)) + rest) == q + EncodeToString(e, rest)
  {
    var vs := Values(e, q);
    var b := Bytes(vs);
    CharsOfValues(e, q);
    SextetsOfBytes(vs);
    assert (b + rest)[3..] == rest;
    assert (b + [0, 0])[..3] == b;
    assert Sextets(b[0], b[1], b[2])[..4] == Sextets(b[0], b[1], b[2]);
  }

  lemma ShortQuantum(e: Encoding, d: string)
    requires 2 <= |d| <= 3 && AllInAlphabet(e, d)
    ensures EncodeToString(e, Bytes(Values(e, d))) == d + Pad(e, 4 - |d|) <==> Low(Values(e, d)) == 0
  {
    var vs := Values(e, d);
    var bs := Bytes(vs) + [0, 0];
    var ws := Sextets(bs[0], bs[1], bs[2])[..|d|];
    CharsOfValues(e, d);
    ValuesOfChars(e, ws);
    SextetsOfBytes(vs);
    assert EncodeToString(e, Bytes(vs)) == Chars(e, ws) + Pad(e, 4 - |d|);
    assert (Chars(e, ws) + Pad(e, 4 - |d|))[..|d|] == Chars(e, ws);
    assert (d + Pad(e, 4 - |d|))[..|d|] == d;
  }

  lemma DecodeLastExact(e: Encoding, s: string)
    requires !(|s| >= 4 && AllInAlphabet(e, s[..4]))
    ensures DecodeQuanta(e, s).Some? <==> WellFormed(e, s)
    ensures DecodeQuanta(e, s).Some? ==>
              (EncodeToString(e, DecodeQuanta(e, s).value) == s <==> DroppedBits(e, Digits(e, s)) == 0)
  {
    DecodeLastAccepts(e, s);
    if WellFormed(e, s) && s != "" {
      LastDigits(e, s);
      LastValue(e, s);
      ShortQuantum(e, Digits(e, s));
    }
  }

  lemma LastValue(e: Encoding, s: string)
    requires WellFormed(e, s) && s != "" && !(|s| >= 4 && AllInAlphabet(e, s[..4]))
    requires 2 <= |Digits(e, s)| <= 3
    ensures DecodeQuanta(e, s) == Some(Bytes(Values(e, Digits(e, s))))
    ensures DroppedBits(e, Digits(e, s)) == Low(Values(e, Digits(e, s)))
  {
    var d := Digits(e, s);
    assert d[0..] == d;
    LastDigits(e, s);
  }

  lemma DecodeLastAccepts(e: Encoding, s: string)
    requires !(|s| >= 4 && AllInAlphabet(e, s[..4]))
    ensures DecodeQuanta(e, s).Some? <==> WellFormed(e, s)
  {
    if WellFormed(e, s) && s != "" {
      LastDigits(e, s);
    }
    if e.StdEncoding? && |s| == 4 && DecodeLast(e, s).Some? {
      UnpaddedUnique(s, if s[2..] == "==" then s[..2] else s[..3]);
    }
  }

  lemma LastDigits(e: Encoding, s: string)
    requires WellFormed(e, s) && s != "" && !(|s| >= 4 && AllInAlphabet(e, s[..4]))
    ensures var d := Digits(e, s); 2 <= |d| <= 3 && s == d + Pad(e, 4 - |d|)
  {
    var d := Digits(e, s);
    assert |s| >= 4 ==> !AllInAlphabet(e, s[..4]);
    assert e.StdEncoding? ==> |s| == 4;
  }

  /** The URL-safe decoder, line breaks included: what it accepts, and which texts are canonical. */
  lemma DecodeStringExact(e: Encoding, s: string)
    ensures DecodeString(e, s).Some? <==> WellFormed(e, StripNewlines(s))
    ensures DecodeString(e, s).Some? ==>
              (EncodeToString(e, DecodeString(e, s).value) == s
          <==> '\r' !in s && '\n' !in s && DroppedBits(e, Digits(e, StripNewlines(s))) == 0)
  {
    DecodeQuantaExact(e, StripNewlines(s));
    StripIsIdentity(s);
    if DecodeString(e, s).Some? && EncodeToString(e, DecodeString(e, s).value) == s {
      NoNewlinesInOutput(e, DecodeString(e, s).value);
    }
  }

  /** On exactly the other texts the one helper returns nothing and the other one the text of the error. */
  lemma MalformedInput(v: string, errorText: seq<Byte>)
    ensures !WellFormed(RawURLEncoding, StripNewlines(v)) ==> URL64decode(v) == []
    ensures !WellFormed(StdEncoding, StripNewlines(v)) ==> Base64decode(v, errorText) == errorText
    ensures WellFormed(StdEncoding, StripNewlines(v)) ==>
              Some(Base64decode(v, errorText)) == DecodeString(StdEncoding, v)
    ensures WellFormed(RawURLEncoding, StripNewlines(v)) ==> Some(URL64decode(v)) == DecodeString(RawURLEncoding, v)
  {
    DecodeStringExact(RawURLEncoding, v);
    DecodeStringExact(StdEncoding, v);
  }

  /** Decoding is not injective: the low four bits of the second character are lost. */
  lemma DecodingIsNotInjective()
    ensures "AA" != "AB" && URL64decode("AA") == URL64decode("AB") == [0]
  {
    assert StripNewlines("AA") == "AA" && StripNewlines("AB") == "AB";
  }
}
