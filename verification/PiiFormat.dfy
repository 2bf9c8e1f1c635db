/** The printed form of an encrypted field, `iv:authTag:cipher` in hexadecimal, and the
    predicate that recognises it. */
module PiiFormat {
  import Text

  type Byte = b: int | 0 <= b < 256
  type Bytes16 = bs: seq<Byte> | |bs| == 16 witness [0, 0, 0, 0, 0, 0, 0, 0, 0, 0, 0, 0, 0, 0, 0, 0]

  // ---------- Hexadecimal ----------

  const HEX := "0123456789abcdef"

  /** One of the characters of `/[a-f0-9]/i`. */
  predicate IsHex(c: char) { '0' <= c <= '9' || 'a' <= c <= 'f' || 'A' <= c <= 'F' }

  predicate IsLowerHex(c: char) { '0' <= c <= '9' || 'a' <= c <= 'f' }

  function HexDigit(n: nat): char
    requires n < 16
  {
    HEX[n]
  }

  function HexValue(c: char): nat
    requires IsHex(c)
  {
    if c <= '9' then c as int - '0' as int
    else if c <= 'F' then c as int - 'A' as int + 10
    else c as int - 'a' as int + 10
  }

  /** `buffer.toString('hex')` */
  function ToHex(bytes: seq<Byte>): (s: string)
    ensures |s| == 2 * |bytes|
  {
    if bytes == [] then "" else [HexDigit(bytes[0] / 16), HexDigit(bytes[0] % 16)] + ToHex(bytes[1..])
  }

  predicate AllHex(s: string) { forall i | 0 <= i < |s| :: IsHex(s[i]) }

  predicate AllLowerHex(s: string) { forall i | 0 <= i < |s| :: IsLowerHex(s[i]) }

  function FromHex(s: string): (bytes: seq<Byte>)
    requires AllHex(s) && |s| % 2 == 0
    ensures |bytes| == |s| / 2
  {
    if s == [] then [] else [16 * HexValue(s[0]) + HexValue(s[1])] + FromHex(s[2..])
  }

  lemma HexDigitValue(n: nat)
    requires n < 16
    ensures IsLowerHex(HexDigit(n)) && HexValue(HexDigit(n)) == n
  {}

  lemma HexValueDigit(c: char)
    requires IsLowerHex(c)
    ensures HexValue(c) < 16 && HexDigit(HexValue(c)) == c
  {}

  lemma ToHexHead(b: Byte, rest: seq<Byte>)
    ensures ToHex([b] + rest) == [HexDigit(b / 16), HexDigit(b % 16)] + ToHex(rest)
  {
    assert ([b] + rest)[1..] == rest;
  }

  lemma PrependHex(c: char, d: char, rest: string)
    requires IsLowerHex(c) && IsLowerHex(d) && AllLowerHex(rest)
    ensures AllLowerHex([c, d] + rest) && ([c, d] + rest)[2..] == rest
  {
    var s := [c, d] + rest;
    forall i | 0 <= i < |s| ensures IsLowerHex(s[i]) {
      assert i >= 2 ==> s[i] == rest[i - 2];
    }
  }

  lemma FromHexHead(s: string, rest: string)
    requires AllHex(s) && |s| % 2 == 0 && |s| >= 2 && s[2..] == rest
    ensures AllHex(rest) && FromHex(s) == [16 * HexValue(s[0]) + HexValue(s[1])] + FromHex(rest)
  {
    forall i | 0 <= i < |rest| ensures IsHex(rest[i]) {
      assert rest[i] == s[i + 2];
    }
  }

  lemma {:induction false} HexRoundTrip(bytes: seq<Byte>)
    ensures AllLowerHex(ToHex(bytes)) && FromHex(ToHex(bytes)) == bytes
  {
    if bytes != [] {
      var hi, lo := bytes[0] / 16, bytes[0] % 16;
      HexRoundTrip(bytes[1..]);
      HexDigitValue(hi);
      HexDigitValue(lo);
      PrependHex(HexDigit(hi), HexDigit(lo), ToHex(bytes[1..]));
      FromHexHead(ToHex(bytes), ToHex(bytes[1..]));
    }
  }

  lemma HexPair(c: char, d: char)
    requires IsLowerHex(c) && IsLowerHex(d)
    ensures var b := 16 * HexValue(c) + HexValue(d);
      0 <= b < 256 && HexDigit(b / 16) == c && HexDigit(b % 16) == d
  {
    HexValueDigit(c);
    HexValueDigit(d);
  }

  lemma {:induction false} HexReverse(s: string)
    requires AllLowerHex(s) && |s| % 2 == 0
    ensures ToHex(FromHex(s)) == s
    decreases |s|
  {
    if s != [] {
      HexReverse(s[2..]);
      HexPair(s[0], s[1]);
      ToHexHead(16 * HexValue(s[0]) + HexValue(s[1]), FromHex(s[2..]));
      assert s == [s[0], s[1]] + s[2..];
    }
  }

  // ---------- The format ----------

  /** What AES-256-GCM returns for a text; its value is left open. */
  datatype Sealed = Sealed(cipher: seq<Byte>, authTag: Bytes16)

  function Format(iv: Bytes16, box: Sealed): string {
    ToHex(iv) + ":" + ToHex(box.authTag) + ":" + ToHex(box.cipher)
  }

  predicate HexPart(p: string) { p != [] && AllHex(p) }

  predicate LooksAlreadyEncrypted(value: string) {
    var parts := Text.Split(value, ':');
    |parts| == 3 && |parts[0]| == 32 && |parts[1]| == 32 && forall i | 0 <= i < 3 :: HexPart(parts[i])
  }

  lemma HexHasNoColon(bytes: seq<Byte>)
    ensures ':' !in ToHex(bytes)
  {
    HexRoundTrip(bytes);
  }

  lemma SplitThree(a: string, b: string, c: string)
    requires ':' !in a && ':' !in b && ':' !in c
    ensures Text.Split(a + ":" + b + ":" + c, ':') == [a, b, c]
  {
    assert Text.Join([c], ":") == c;
    assert Text.Join([b, c], ":") == b + ":" + c;
    assert Text.Join([a, b, c], ":") == a + ":" + (b + ":" + c);
    assert a + ":" + b + ":" + c == a + ":" + (b + ":" + c);
    Text.SplitJoin([a, b, c], ':');
  }

  /** Splitting the printed form gives back the three parts, and each decodes to its bytes. */
  lemma FormatSplits(iv: Bytes16, box: Sealed)
    ensures var parts := Text.Split(Format(iv, box), ':');
      && parts == [ToHex(iv), ToHex(box.authTag), ToHex(box.cipher)]
      && (forall i | 0 <= i < 3 :: AllHex(parts[i]) && |parts[i]| % 2 == 0)
      && FromHex(parts[0]) == iv && FromHex(parts[1]) == box.authTag && FromHex(parts[2]) == box.cipher
  {
    HexHasNoColon(iv);
    HexHasNoColon(box.authTag);
    HexHasNoColon(box.cipher);
    SplitThree(ToHex(iv), ToHex(box.authTag), ToHex(box.cipher));
    HexRoundTrip(iv);
    HexRoundTrip(box.authTag);
    HexRoundTrip(box.cipher);
  }

  /** The recogniser accepts the printed form exactly when something was encrypted. */
  lemma RecognisesFormat(iv: Bytes16, box: Sealed)
    ensures LooksAlreadyEncrypted(Format(iv, box)) <==> box.cipher != []
  {
    FormatSplits(iv, box);
    HexRoundTrip(iv);
    HexRoundTrip(box.authTag);
    HexRoundTrip(box.cipher);
  }

  predicate NoUpperHex(value: string) { forall i | 0 <= i < |value| :: !('A' <= value[i] <= 'F') }

  lemma AcceptedIsFormatted(value: string) returns (iv: Bytes16, box: Sealed)
    requires LooksAlreadyEncrypted(value) && NoUpperHex(value) && |value| % 2 == 0
    ensures box.cipher != [] && value == Format(iv, box)
  {
    var parts := Text.Split(value, ':');
    var a, b, c := parts[0], parts[1], parts[2];
    assert HexPart(a) && HexPart(b) && HexPart(c);
    Text.JoinSplit(value, ':');
    JoinThree(parts);
    LowerParts(value, a, b, c);
    assert |c| % 2 == 0;
    HexReverse(a);
    HexReverse(b);
    HexReverse(c);
    iv, box := FromHex(a), Sealed(FromHex(c), FromHex(b));
  }

  lemma LowerHasNoUpper(a: string, b: string, c: string)
    requires AllLowerHex(a) && AllLowerHex(b) && AllLowerHex(c)
    ensures NoUpperHex(a + ":" + b + ":" + c)
  {
    var value := a + ":" + b + ":" + c;
    forall i | 0 <= i < |value| ensures !('A' <= value[i] <= 'F') {
      assert value[i] in a || value[i] == ':' || value[i] in b || value[i] in c;
    }
  }

  lemma FormattedIsAccepted(iv: Bytes16, box: Sealed)
    requires box.cipher != []
    ensures var value := Format(iv, box); LooksAlreadyEncrypted(value) && NoUpperHex(value) && |value| % 2 == 0
  {
    RecognisesFormat(iv, box);
    HexRoundTrip(iv);
    HexRoundTrip(box.authTag);
    HexRoundTrip(box.cipher);
    LowerHasNoUpper(ToHex(iv), ToHex(box.authTag), ToHex(box.cipher));
  }

  /** What the recogniser accepts beyond the encryption's own output: upper-case digits and a
      cipher part of odd length. */
  lemma RecogniserExactness(value: string)
    ensures LooksAlreadyEncrypted(value) && NoUpperHex(value) && |value| % 2 == 0
      <==> exists iv: Bytes16, box: Sealed :: box.cipher != [] && value == Format(iv, box)
  {
    if LooksAlreadyEncrypted(value) && NoUpperHex(value) && |value| % 2 == 0 {
      var iv, box := AcceptedIsFormatted(value);
    }
    if iv: Bytes16, box: Sealed :| box.cipher != [] && value == Format(iv, box) {
      FormattedIsAccepted(iv, box);
    }
  }

  /** An accepted text that no encryption prints: a cipher part of one digit. */
  lemma AcceptedButNeverPrinted() returns (value: string)
    ensures LooksAlreadyEncrypted(value)
    ensures forall iv: Bytes16, box: Sealed :: value != Format(iv, box)
  {
    var part := seq(32, i => 'a');
    value := part + ":" + part + ":" + "a";
    SplitThree(part, part, "a");
    assert HexPart(part) && HexPart("a");
    forall iv: Bytes16, box: Sealed ensures value != Format(iv, box) {
      assert |value| == 67 && |Format(iv, box)| % 2 == 0;
    }
  }

  ghost predicate Hexadecimal(s: string) { forall c | c in s :: c in "0123456789abcdefABCDEF" }

  ghost predicate ThreeParts(value: string, a: string, b: string, c: string) {
    && value == a + ":" + b + ":" + c && |a| == 32 && |b| == 32 && c != ""
    && Hexadecimal(a) && Hexadecimal(b) && Hexadecimal(c)
  }

  /** The recogniser's language: thirty-two hexadecimal digits, a colon, thirty-two more, a colon,
      and at least one. */
  lemma RecognisedLanguage(value: string)
    ensures LooksAlreadyEncrypted(value) <==>
      exists a, b, c :: ThreeParts(value, a, b, c)
  {
    if LooksAlreadyEncrypted(value) {
      var parts := Text.Split(value, ':');
      assert HexPart(parts[0]) && HexPart(parts[1]) && HexPart(parts[2]);
      Text.JoinSplit(value, ':');
      JoinThree(parts);
      HexMeansHexadecimal(parts[0]);
      HexMeansHexadecimal(parts[1]);
      HexMeansHexadecimal(parts[2]);
      assert ThreeParts(value, parts[0], parts[1], parts[2]);
    }
    if a, b, c :| ThreeParts(value, a, b, c) {
      HexMeansHexadecimal(a);
      HexMeansHexadecimal(b);
      HexMeansHexadecimal(c);
      SplitThree(a, b, c);
    }
  }

  lemma HexMeansHexadecimal(s: string)
    ensures AllHex(s) <==> Hexadecimal(s)
    ensures AllHex(s) ==> ':' !in s
  {
    forall c: char ensures IsHex(c) <==> c in "0123456789abcdefABCDEF" {
      IsHexDigit(c);
    }
    if AllHex(s) {
      forall c | c in s ensures IsHex(c) {
        var i :| 0 <= i < |s| && s[i] == c;
      }
    }
    if Hexadecimal(s) {
      forall i | 0 <= i < |s| ensures IsHex(s[i]) {
        assert s[i] in s;
      }
    }
  }

  lemma IsHexDigit(c: char)
    ensures IsHex(c) <==> c in "0123456789abcdefABCDEF"
  {
    var digits := "0123456789abcdefABCDEF";
    if IsHex(c) {
      var n := if c <= '9' then c as int - '0' as int
               else if c <= 'F' then c as int - 'A' as int + 16 else c as int - 'a' as int + 10;
      assert digits[n] == c;
    }
  }

  lemma JoinThree(parts: seq<string>)
    requires |parts| == 3
    ensures Text.Join(parts, ":") == parts[0] + ":" + parts[1] + ":" + parts[2]
  {
    assert parts[1..][1..] == [parts[2]];
    assert Text.Join(parts[1..][1..], ":") == parts[2];
    assert Text.Join(parts[1..], ":") == parts[1] + ":" + parts[2];
  }

  lemma LowerParts(value: string, a: string, b: string, c: string)
    requires value == a + ":" + b + ":" + c && NoUpperHex(value) && AllHex(a) && AllHex(b) && AllHex(c)
    ensures AllLowerHex(a) && AllLowerHex(b) && AllLowerHex(c)
  {
    assert forall i | 0 <= i < |a| :: value[i] == a[i];
    assert forall i | 0 <= i < |b| :: value[|a| + 1 + i] == b[i];
    assert forall i | 0 <= i < |c| :: value[|a| + |b| + 2 + i] == c[i];
  }
}
