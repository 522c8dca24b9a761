/** The text form of a MAC address: parsing, printing, and the fallback addresses. */
module MacText {
  import opened Common

  type Byte = x: int | 0 <= x < 256

  /** Bytes of text are characters; std::tolower() in the C locale. */
  function ToLower(c: char): char {
    if 'A' <= c <= 'Z' then c + 32 as char else c
  }

  function ToUpper(c: char): char {
    if 'a' <= c <= 'z' then c - 32 as char else c
  }

  function HexValue(c: char): int {
    if '0' <= c <= '9' then c as int - '0' as int
    else
      var lower := ToLower(c);
      if 'a' <= lower <= 'f' then lower as int - 'a' as int + 10 else -1
  }

  /** The digits, of either case, and nothing else have a value. */
  lemma HexDigits(c: char)
    ensures HexValue(c) ==
            match c
            case '0' => 0 case '1' => 1 case '2' => 2 case '3' => 3 case '4' => 4
            case '5' => 5 case '6' => 6 case '7' => 7 case '8' => 8 case '9' => 9
            case 'a' => 10 case 'b' => 11 case 'c' => 12 case 'd' => 13 case 'e' => 14 case 'f' => 15
            case 'A' => 10 case 'B' => 11 case 'C' => 12 case 'D' => 13 case 'E' => 14 case 'F' => 15
            case _ => -1
  {
  }

  /** The digit printed by %X. */
  function HexDigit(v: int): char
    requires 0 <= v < 16
  {
    if v < 10 then '0' + v as char else 'A' + (v - 10) as char
  }

  lemma HexRoundTrip(v: int)
    requires 0 <= v < 16
    ensures HexValue(HexDigit(v)) == v
  {
  }

  lemma HexOfUpper(c: char)
    requires HexValue(c) >= 0
    ensures HexValue(c) < 16 && HexDigit(HexValue(c)) == ToUpper(c)
  {
  }

  /** `text` is six two-digit hexadecimal numbers, of either case, with colons between them. */
  ghost predicate Encodes(text: string, address: seq<Byte>) {
    && |text| == 17 && |address| == 6
    && (forall i :: 0 <= i < 6 ==>
          HexValue(text[3 * i]) == address[i] / 16 && HexValue(text[3 * i + 1]) == address[i] % 16)
    && (forall i :: 0 <= i < 5 ==> text[3 * i + 2] == ':')
  }

  /** Neither all zeros nor all ones, and not a group address. */
  ghost predicate Acceptable(address: seq<Byte>) {
    && |address| == 6
    && (exists i :: 0 <= i < 6 && address[i] != 0)
    && (exists i :: 0 <= i < 6 && address[i] != 0xff)
    && address[0] % 2 == 0
  }

  ghost predicate IsMac(text: string) {
    exists address :: Encodes(text, address) && Acceptable(address)
  }

  /** snprintf() with "%02X:%02X:%02X:%02X:%02X:%02X". */
  function Print(address: seq<Byte>): (text: string)
    requires |address| == 6
    ensures |text| == 17
  {
    seq(17, k requires 0 <= k < 17 =>
      if k % 3 == 2 then ':' else HexDigit(if k % 3 == 0 then address[k / 3] / 16 else address[k / 3] % 16))
  }

  /** Parsing recovers exactly the bytes that were printed. */
  lemma PrintParses(address: seq<Byte>)
    requires |address| == 6
    ensures Encodes(Print(address), address)
  {
    var text := Print(address);
    forall i | 0 <= i < 6
      ensures HexValue(text[3 * i]) == address[i] / 16 && HexValue(text[3 * i + 1]) == address[i] % 16
    {
      Thirds(i);
      HexRoundTrip(address[i] / 16);
      HexRoundTrip(address[i] % 16);
    }
    forall i | 0 <= i < 5 ensures text[3 * i + 2] == ':' {
      Thirds(i);
    }
  }

  lemma Thirds(i: nat)
    ensures (3 * i) / 3 == i && (3 * i) % 3 == 0
    ensures (3 * i + 1) / 3 == i && (3 * i + 1) % 3 == 1
    ensures (3 * i + 2) / 3 == i && (3 * i + 2) % 3 == 2
  {
  }

  /** Any text that parses is, in upper case, the printout of what it parses to; so a text stands for
      one address only. */
  lemma ParsedTextIsPrinted(text: string, address: seq<Byte>)
    requires Encodes(text, address)
    ensures seq(17, k requires 0 <= k < 17 => ToUpper(text[k])) == Print(address)
  {
    forall k | 0 <= k < 17
      ensures ToUpper(text[k]) == Print(address)[k]
    {
      var i := k / 3;
      assert k == 3 * i + k % 3;
      if k % 3 == 0 {
        HexOfUpper(text[3 * i]);
      } else if k % 3 == 1 {
        assert HexValue(text[3 * i + 1]) == address[i] % 16;
        HexOfUpper(text[3 * i + 1]);
      }
    }
  }

  lemma EncodesIsFunctional(text: string, a: seq<Byte>, b: seq<Byte>)
    requires Encodes(text, a) && Encodes(text, b)
    ensures a == b
  {
    forall i | 0 <= i < 6
      ensures a[i] == b[i]
    {
      assert HexValue(text[3 * i]) == a[i] / 16 == b[i] / 16;
      assert HexValue(text[3 * i + 1]) == a[i] % 16 == b[i] % 16;
    }
  }

  /** (first & 0xfe) | 0x02 */
  function MakeLocal(first: Byte): Byte {
    first / 4 * 4 + 2
  }

  lemma MakeLocalIsMasking(b: Byte)
    ensures (((b as bv8) & 0xfe) | 0x02) as int == MakeLocal(b)
  {
    BitsOfByte(b);
    MaskingBits(b as bv8);
  }

  lemma MaskingBits(v: bv8)
    ensures ((v & 0xfe) | 0x02) as int == (v as int) / 4 * 4 + 2
  {
  }

  /** The fallback address made of six random bytes. */
  function LocalAddress(random: seq<Byte>): (address: seq<Byte>)
    requires |random| == 6
    ensures |address| == 6
  {
    random[0 := MakeLocal(random[0])]
  }

  /** `text` is a valid unicast address that is locally administered. */
  ghost predicate IsLocalMac(text: string) {
    exists address :: Encodes(text, address) && Acceptable(address) && address[0] / 2 % 2 == 1
  }

  /** A generated address is unicast and locally administered (section 2.1 of RFC 7042: the two low
      bits of the first octet), and the parser accepts it. */
  lemma GeneratedIsAcceptable(random: seq<Byte>)
    requires |random| == 6
    ensures var address := LocalAddress(random);
            && address[0] % 2 == 0 && address[0] / 2 % 2 == 1 && address[1..] == random[1..]
            && (address[0] / 4 == random[0] / 4)
            && Acceptable(address) && IsLocalMac(Print(address))
  {
    LowBits(random[0]);
    var address := LocalAddress(random);
    assert address[0] == MakeLocal(random[0]);
    assert Acceptable(address);
    PrintParses(address);
  }

  lemma LowBits(b: Byte)
    ensures var m := MakeLocal(b);
            m % 2 == 0 && m / 2 % 2 == 1 && m != 0 && m != 0xff
  {
  }

  method ParseMac(text: string, address: array<Byte>) returns (ok: bool)
    requires address.Length == 6
    modifies address
    ensures ok <==> IsMac(text)
    ensures ok ==> Encodes(text, address[..])
  {
    if |text| != 17 {
      return false;
    }
    for index := 0 to 6
      invariant forall i :: 0 <= i < index ==>
                  HexValue(text[3 * i]) == address[i] / 16 && HexValue(text[3 * i + 1]) == address[i] % 16
      invariant forall i :: 0 <= i < index && i < 5 ==> text[3 * i + 2] == ':'
    {
      var offset := index * 3;
      var high := HexValue(text[offset]);
      var low := HexValue(text[offset + 1]);
      if high < 0 || low < 0 || (index < 5 && text[offset + 2] != ':') {
        NotAMac(text, index);
        return false;
      }
      HexOfUpper(text[offset]);
      HexOfUpper(text[offset + 1]);
      address[index] := high * 16 + low;
    }
    assert Encodes(text, address[..]);
    var allZero, allFf := true, true;
    for i := 0 to 6
      invariant allZero <==> forall j :: 0 <= j < i ==> address[j] == 0
      invariant allFf <==> forall j :: 0 <= j < i ==> address[j] == 0xff
    {
      allZero := allZero && address[i] == 0;
      allFf := allFf && address[i] == 0xff;
    }
    ok := !allZero && !allFf && address[0] % 2 == 0;
    assert ok <==> Acceptable(address[..]);
    if !ok {
      NotAcceptable(text, address[..]);
    }
  }

  lemma NotAMac(text: string, index: nat)
    requires |text| == 17 && index < 6
    requires HexValue(text[3 * index]) < 0 || HexValue(text[3 * index + 1]) < 0
             || (index < 5 && text[3 * index + 2] != ':')
    ensures !IsMac(text)
  {
    forall address | Encodes(text, address)
      ensures false
    {
      EncodedDigits(text, address, index);
    }
  }

  lemma EncodedDigits(text: string, address: seq<Byte>, index: nat)
    requires Encodes(text, address) && index < 6
    ensures HexValue(text[3 * index]) >= 0 && HexValue(text[3 * index + 1]) >= 0
    ensures index < 5 ==> text[3 * index + 2] == ':'
  {
    assert HexValue(text[3 * index]) == address[index] / 16;
  }

  lemma NotAcceptable(text: string, address: seq<Byte>)
    requires Encodes(text, address) && !Acceptable(address)
    ensures !IsMac(text)
  {
    forall other | Encodes(text, other)
      ensures !Acceptable(other)
    {
      EncodesIsFunctional(text, address, other);
    }
  }

  /** std::isspace() in the C locale. */
  predicate IsSpace(c: char) {
    c == ' ' || '\t' <= c <= '\r'
  }

  /** White space is the blank, tab, line feed, vertical tab, form feed and carriage return. */
  lemma SpaceCharacters(c: char)
    ensures IsSpace(c) <==> c in {' ', '\t', '\n', 11 as char, 12 as char, '\r'}
  {
  }

  function TrimEnd(text: string): string {
    if text != [] && IsSpace(text[|text| - 1]) then TrimEnd(text[..|text| - 1]) else text
  }

  /** What is cut off is white space only, and all of it at the end. */
  lemma {:induction false} TrimmedIsBare(text: string)
    ensures var bare := TrimEnd(text);
            && bare <= text
            && (forall k :: |bare| <= k < |text| ==> IsSpace(text[k]))
            && (bare != [] ==> !IsSpace(bare[|bare| - 1]))
  {
    if text != [] && IsSpace(text[|text| - 1]) {
      TrimmedIsBare(text[..|text| - 1]);
    }
  }

  const READ_SIZE := 32

  /** What HasValidMac() accepts of a file: only its first 32 bytes are looked at. */
  ghost predicate ValidContent(content: string) {
    content != [] && IsMac(TrimEnd(if |content| > READ_SIZE then content[..READ_SIZE] else content))
  }

  /** A file is valid exactly if its first 32 bytes are the text of a valid address with nothing but white
      space after it. */
  lemma ValidContentExactly(content: string)
    ensures var seen := if |content| > 32 then content[..32] else content;
            ValidContent(content)
            <==> exists text :: IsMac(text) && text <= seen && forall k :: |text| <= k < |seen| ==> IsSpace(seen[k])
  {
    var seen := if |content| > 32 then content[..32] else content;
    TrimmedIsBare(seen);
    forall text | IsMac(text) && text <= seen && forall k :: |text| <= k < |seen| ==> IsSpace(seen[k])
      ensures IsMac(TrimEnd(seen)) && seen != []
    {
      TrimmedText(seen, text);
    }
  }

  lemma MacEndsInDigit(text: string)
    requires IsMac(text)
    ensures |text| == 17 && !IsSpace(text[16])
  {
    var address :| Encodes(text, address) && Acceptable(address);
    assert HexValue(text[3 * 5 + 1]) == address[5] % 16;
    HexDigits(text[16]);
  }

  /** Trimming cuts back to a text that does not end in white space. */
  lemma {:induction false} TrimmedText(seen: string, text: string)
    requires IsMac(text) && text <= seen && forall k :: |text| <= k < |seen| ==> IsSpace(seen[k])
    ensures TrimEnd(seen) == text
  {
    MacEndsInDigit(text);
    if |seen| > |text| {
      TrimmedText(seen[..|seen| - 1], text);
    } else {
      assert seen == text;
    }
  }

  lemma PrintedIsValidContent(address: seq<Byte>)
    requires Acceptable(address)
    ensures IsMac(Print(address)) && ValidContent(Print(address))
  {
    PrintParses(address);
    var text := Print(address);
    Thirds(5);
    assert text[16] == HexDigit(address[5] % 16);
  }
}
