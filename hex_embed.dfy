/**
 * The font embedder's encoder (font_embedder.py): every byte of the font file becomes
 * `0x` and two lower-case hex digits, the items are joined with ", ", and the result is
 * wrapped as the Python source text `font_hex_italic = [...]`. A decoder for that text
 * is given beside it: decoding undoes encoding, so the encoding is injective, and on texts
 * made only of lower-case `0x` items encoding undoes decoding.
 */
module HexEmbed {
  import opened Options

  type Byte = b: int | 0 <= b < 256

  const Separator: string := ", "
  const Prefix: string := "font_hex_italic = ["
  const Suffix: string := "]"

  predicate IsLowerHex(c: char)
  {
    '0' <= c <= '9' || 'a' <= c <= 'f'
  }

  /** The value of a hexadecimal digit of either case, as Python's `int(_, 16)` reads it. */
  function DigitValue(c: char): (v: Option<int>)
    ensures v.Some? ==> 0 <= v.value < 16
    ensures IsLowerHex(c) ==> v.Some?
  {
    if '0' <= c <= '9' then Some(c as int - '0' as int)
    else if 'a' <= c <= 'f' then Some(c as int - 'a' as int + 10)
    else if 'A' <= c <= 'F' then Some(c as int - 'A' as int + 10)
    else None
  }

  /** The lower-case digit of `format`'s `x` conversion for `0 <= d < 16`. */
  function HexDigit(d: int): (c: char)
    requires 0 <= d < 16
    ensures IsLowerHex(c) && DigitValue(c) == Some(d)
  {
    if d < 10 then ('0' as int + d) as char else ('a' as int + d - 10) as char
  }

  /** `f"0x{byte:02x}"`: the prefix `0x` and exactly two zero-padded lower-case digits. */
  function FormatByte(b: Byte): (r: string)
    ensures |r| == 4 && r[0] == '0' && r[1] == 'x'
    ensures IsLowerHex(r[2]) && IsLowerHex(r[3])
    ensures DigitValue(r[2]).value * 16 + DigitValue(r[3]).value == b
  {
    "0x" + [HexDigit(b / 16), HexDigit(b % 16)]
  }

  /** The summed length of the items. */
  function TotalLength(items: seq<string>): nat
    decreases |items|
  {
    if items == [] then 0 else |items[0]| + TotalLength(items[1..])
  }

  /**
   * Python's `sep.join(items)`: the items in order with `sep` between neighbours, so
   * `n` items contribute their own characters and `n - 1` separators; the first item
   * opens the text.
   */
  function Join(items: seq<string>, sep: string): (r: string)
    ensures |items| >= 1 ==> |r| == TotalLength(items) + (|items| - 1) * |sep|
    ensures |items| >= 1 ==> r[..|items[0]|] == items[0]
    ensures items == [] ==> r == ""
    decreases |items|
  {
    if |items| == 0 then ""
    else if |items| == 1 then items[0]
    else items[0] + sep + Join(items[1..], sep)
  }

  /** The generator `f"0x{byte:02x}" for byte in font_data`, in byte order. */
  function FormatAll(bytes: seq<Byte>): (items: seq<string>)
    ensures |items| == |bytes|
    ensures forall i | 0 <= i < |bytes| :: items[i] == FormatByte(bytes[i])
  {
    seq(|bytes|, i requires 0 <= i < |bytes| => FormatByte(bytes[i]))
  }

  /** Four characters per formatted byte. */
  lemma {:induction false} FormatAllLength(bytes: seq<Byte>)
    ensures TotalLength(FormatAll(bytes)) == 4 * |bytes|
    decreases |bytes|
  {
    if bytes != [] {
      assert FormatAll(bytes)[1..] == FormatAll(bytes[1..]);
      FormatAllLength(bytes[1..]);
    }
  }

  /** `hex_array`: the formatted bytes joined with ", ": six characters per byte, less the missing last separator. */
  function HexArray(bytes: seq<Byte>): (r: string)
    ensures |r| == if bytes == [] then 0 else 6 * |bytes| - 2
  {
    FormatAllLength(bytes);
    Join(FormatAll(bytes), Separator)
  }

  /** The text written to the output file: the array plus the 20 characters of its wrapper. */
  function Output(bytes: seq<Byte>): (r: string)
    ensures |r| == |HexArray(bytes)| + 20
    ensures r[..19] == "font_hex_italic = ["
    ensures r[|r| - 1] == ']'
  {
    Prefix + HexArray(bytes) + Suffix
  }

  // ---------------------------------------------------------------------------
  // The decoder: split on ", " and read every item back as a hexadecimal byte.

  /** Python's `s.split(", ")`: the pieces between separators, never an empty list. */
  function Split(s: string): (pieces: seq<string>)
    ensures |pieces| >= 1
    decreases |s|
  {
    if |s| < 2 then [s]
    else if s[..2] == Separator then [""] + Split(s[2..])
    else
      var rest := Split(s[1..]);
      [[s[0]] + rest[0]] + rest[1..]
  }

  /** Joining the pieces of a split with the separator gives back the text. */
  lemma {:induction false} JoinSplit(s: string)
    ensures Join(Split(s), Separator) == s
    decreases |s|
  {
    if |s| >= 2 {
      if s[..2] == Separator {
        JoinSplit(s[2..]);
        assert s == Separator + s[2..];
      } else {
        var rest := Split(s[1..]);
        JoinSplit(s[1..]);
        if |rest| == 1 {
          assert [s[0]] + s[1..] == s;
        } else {
          assert Join(rest, Separator) == rest[0] + Separator + Join(rest[1..], Separator);
          assert [s[0]] + s[1..] == s;
        }
      }
    }
  }

  /** One item `0x` + two hex digits (of either case), read as a byte. */
  function ParseItem(item: string): (b: Option<Byte>)
  {
    if |item| == 4 && item[0] == '0' && (item[1] == 'x' || item[1] == 'X') &&
       DigitValue(item[2]).Some? && DigitValue(item[3]).Some?
    then Some(DigitValue(item[2]).value * 16 + DigitValue(item[3]).value)
    else None
  }

  function ParseItems(items: seq<string>): (r: Option<seq<Byte>>)
    ensures r.Some? ==> |r.value| == |items|
    decreases |items|
  {
    if items == [] then Some([])
    else match (ParseItem(items[0]), ParseItems(items[1..]))
      case (Some(b), Some(bs)) => Some([b] + bs)
      case _ => None
  }

  /**
   * Read a joined array back. `"".split(", ")` is `[""]`, so the empty text, which is what
   * an empty file is encoded as, is decoded separately.
   */
  function Decode(s: string): Option<seq<Byte>>
  {
    if s == "" then Some([]) else ParseItems(Split(s))
  }

  /** Read the written file content back: the wrapper, then the array inside it. */
  function DecodeOutput(content: string): Option<seq<Byte>>
  {
    if |content| >= |Prefix| + |Suffix| && content[..|Prefix|] == Prefix &&
       content[|content| - |Suffix|..] == Suffix
    then Decode(content[|Prefix|..|content| - |Suffix|])
    else None
  }

  // ---------------------------------------------------------------------------
  // Properties.

  predicate NoComma(s: string)
  {
    forall i | 0 <= i < |s| :: s[i] != ','
  }

  /** Every item parses back to its byte, and holds no comma. */
  lemma FormatParse(b: Byte)
    ensures ParseItem(FormatByte(b)) == Some(b)
    ensures NoComma(FormatByte(b))
  {
  }

  /** Splitting a comma-free piece followed by a separator yields that piece first. */
  lemma {:induction false} SplitPiece(a: string, t: string)
    requires NoComma(a)
    ensures Split(a + Separator + t) == [a] + Split(t)
    decreases |a|
  {
    var s := a + Separator + t;
    if a == [] {
      assert s[..2] == Separator && s[2..] == t;
    } else {
      assert s[..2] != Separator by { assert s[0] == a[0] != ','; }
      assert s[1..] == a[1..] + Separator + t;
      SplitPiece(a[1..], t);
      assert [s[0]] + a[1..] == a;
    }
  }

  /** A comma-free text splits into itself alone. */
  lemma {:induction false} SplitWhole(a: string)
    requires NoComma(a)
    ensures Split(a) == [a]
    decreases |a|
  {
    if |a| >= 2 {
      assert a[..2] != Separator by { assert a[0] != ','; }
      SplitWhole(a[1..]);
      assert [a[0]] + a[1..] == a;
    }
  }

  /** Splitting undoes joining for non-empty lists of comma-free items. */
  lemma {:induction false} SplitJoin(items: seq<string>)
    requires |items| >= 1
    requires forall i | 0 <= i < |items| :: NoComma(items[i])
    ensures Split(Join(items, Separator)) == items
    decreases |items|
  {
    if |items| == 1 {
      SplitWhole(items[0]);
    } else {
      SplitJoin(items[1..]);
      SplitPiece(items[0], Join(items[1..], Separator));
    }
  }

  /** Parsing the formatted items gives back the bytes. */
  lemma {:induction false} ParseFormatAll(bytes: seq<Byte>)
    ensures ParseItems(FormatAll(bytes)) == Some(bytes)
    decreases |bytes|
  {
    if bytes != [] {
      var items := FormatAll(bytes);
      FormatParse(bytes[0]);
      assert items[1..] == FormatAll(bytes[1..]);
      ParseFormatAll(bytes[1..]);
      assert ParseItem(items[0]) == Some(bytes[0]);
      assert [bytes[0]] + bytes[1..] == bytes;
    }
  }

  /** Round trip: splitting the joined array on ", " and parsing every item recovers the bytes. */
  lemma RoundTrip(bytes: seq<Byte>)
    ensures Decode(HexArray(bytes)) == Some(bytes)
  {
    var items := FormatAll(bytes);
    if bytes != [] {
      forall i | 0 <= i < |items| ensures NoComma(items[i]) {
        FormatParse(bytes[i]);
      }
      SplitJoin(items);
      ParseFormatAll(bytes);
      assert HexArray(bytes) != "" by { JoinLayout(bytes, 0); }
    }
  }

  /** Different byte sequences are encoded differently. */
  lemma Injective(a: seq<Byte>, b: seq<Byte>)
    requires HexArray(a) == HexArray(b)
    ensures a == b
  {
    RoundTrip(a);
    RoundTrip(b);
  }

  /**
   * The layout of the joined text: `6n - 2` characters for `n >= 1` bytes (none for none);
   * item `i` occupies characters `6i .. 6i + 4`, and every item but the last is followed
   * by the separator ", ".
   */
  lemma {:induction false} JoinLayout(bytes: seq<Byte>, i: nat)
    ensures |HexArray(bytes)| == if bytes == [] then 0 else 6 * |bytes| - 2
    ensures i < |bytes| ==> HexArray(bytes)[6 * i .. 6 * i + 4] == FormatByte(bytes[i])
    ensures i + 1 < |bytes| ==> HexArray(bytes)[6 * i + 4 .. 6 * i + 6] == Separator
    decreases |bytes|
  {
    if |bytes| >= 2 {
      var head := FormatByte(bytes[0]);
      var tail := HexArray(bytes[1..]);
      assert FormatAll(bytes)[1..] == FormatAll(bytes[1..]);
      assert HexArray(bytes) == head + Separator + tail;
      JoinLayout(bytes[1..], if i == 0 then 0 else i - 1);
    }
  }

  /** The written content wraps the array as `font_hex_italic = [...]` and reads back to the bytes. */
  lemma OutputRoundTrip(bytes: seq<Byte>)
    ensures Output(bytes)[..|Prefix|] == Prefix
    ensures Output(bytes)[|Prefix|..|Output(bytes)| - 1] == HexArray(bytes)
    ensures Output(bytes)[|Output(bytes)| - 1] == ']'
    ensures DecodeOutput(Output(bytes)) == Some(bytes)
  {
    var c := Output(bytes);
    assert c[..|Prefix|] == Prefix;
    assert c[|Prefix|..|c| - |Suffix|] == HexArray(bytes);
    assert c[|c| - |Suffix|..] == Suffix;
    RoundTrip(bytes);
  }

  /** A lower-case `0x` item: the only kind of item the encoder writes. */
  predicate IsCanonicalItem(item: string)
  {
    |item| == 4 && item[0] == '0' && item[1] == 'x' && IsLowerHex(item[2]) && IsLowerHex(item[3])
  }

  /** A lower-case hex digit is the digit its value formats to. */
  lemma DigitRoundTrip(c: char)
    requires IsLowerHex(c)
    ensures HexDigit(DigitValue(c).value) == c
  {
  }

  /** A canonical item is the formatting of the byte it parses to. */
  lemma ItemRoundTrip(item: string)
    requires IsCanonicalItem(item)
    ensures ParseItem(item).Some? && FormatByte(ParseItem(item).value) == item
  {
    var b := ParseItem(item).value;
    var hi, lo := DigitValue(item[2]).value, DigitValue(item[3]).value;
    assert b / 16 == hi && b % 16 == lo;
    DigitRoundTrip(item[2]);
    DigitRoundTrip(item[3]);
    assert FormatByte(b) == "0x" + [item[2], item[3]];
  }

  /** Parsed canonical items format back to themselves. */
  lemma {:induction false} FormatParseItems(items: seq<string>)
    requires forall i | 0 <= i < |items| :: IsCanonicalItem(items[i])
    ensures ParseItems(items).Some? && FormatAll(ParseItems(items).value) == items
    decreases |items|
  {
    if items != [] {
      ItemRoundTrip(items[0]);
      FormatParseItems(items[1..]);
      var bs := ParseItems(items).value;
      assert bs == [ParseItem(items[0]).value] + ParseItems(items[1..]).value;
      assert FormatAll(bs)[1..] == FormatAll(bs[1..]);
      assert FormatAll(bs) == [items[0]] + items[1..];
    }
  }

  /**
   * The other direction of the round trip: a text whose `", "`-separated pieces are all
   * lower-case `0x` items is the encoding of the bytes it decodes to. (`Decode` also reads
   * `0X` and upper-case digits, which the encoder never writes, so this needs the premise.)
   */
  lemma DecodeEncode(s: string)
    requires s != "" ==> forall i | 0 <= i < |Split(s)| :: IsCanonicalItem(Split(s)[i])
    ensures Decode(s).Some? && HexArray(Decode(s).value) == s
  {
    if s != "" {
      FormatParseItems(Split(s));
      JoinSplit(s);
    }
  }
}
