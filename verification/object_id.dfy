/** The BSON ObjectId codec vendored into the bundle (dist/duck-storage.js):
    `ObjectID.isValid`, the private `hex` and `buffer` helpers, the string
    constructor and the `str` getter, and `equals`.  Generation from the clock,
    the machine id and the process id is not part of this model.
 */
module ObjectId {
  import opened Results
  import opened JsValues

  // ---------------------------------------------------------------------------
  // Hexadecimal digits
  // ---------------------------------------------------------------------------

  /** `String.prototype.toLowerCase` on the ASCII letters. */
  function LowerChar(c: char): char {
    if 'A' <= c <= 'Z' then (c as int - 'A' as int + 'a' as int) as char else c
  }

  function Lower(s: string): (r: string)
    ensures |r| == |s|
    ensures forall i :: 0 <= i < |s| ==> r[i] == LowerChar(s[i])
  {
    seq(|s|, i requires 0 <= i < |s| => LowerChar(s[i]))
  }

  /** `parseInt(s, 16)`: the value of the longest prefix of hexadecimal digits,
      `NaN` (`None`) when there is none.  Signs, white space and a `0x` prefix
      are not modelled. */
  function ParseHex(s: string): Option<nat> {
    if s == [] || !IsHexChar(s[0]) then None
    else Some(ParseHexFrom(HexValue(s[0]), s[1..]))
  }

  function ParseHexFrom(acc: nat, s: string): nat
    decreases s
  {
    if s == [] || !IsHexChar(s[0]) then acc
    else ParseHexFrom(acc * 16 + HexValue(s[0]), s[1..])
  }

  /** `x.toString(16)` for a number that may be `NaN`. */
  function NumberToHex(x: Option<nat>): string {
    match x
    case None => "NaN"
    case Some(n) => ToHexString(n)
  }

  /** `String.prototype.substring(start, end)`: both ends clamped to the string,
      and swapped when `start > end`. */
  function Substring(s: string, start: int, end: int): string {
    var a := if start < 0 then 0 else if start > |s| then |s| else start;
    var b := if end < 0 then 0 else if end > |s| then |s| else end;
    if a <= b then s[a..b] else s[b..a]
  }

  /** `hex(length, n)`: the hexadecimal text of `n`, left-padded with zeros
      taken from `"00000000".substring(text.length, length)`. */
  function Hex(length: int, x: Option<nat>): string {
    var t := NumberToHex(x);
    if |t| == length then t else Substring("00000000", |t|, length) + t
  }

  /** `hex(2, b)` of a byte is its two lower-case hexadecimal digits. */
  lemma HexOfByte(b: nat)
    requires b < 256
    ensures Hex(2, Some(b)) == [HexChar(b / 16), HexChar(b % 16)]
  {
    if b >= 16 {
      assert ToHexString(b / 16) == [HexChar(b / 16)];
    }
  }

  // ---------------------------------------------------------------------------
  // Validity, bytes and the hexadecimal string
  // ---------------------------------------------------------------------------

  predicate IsHex24(s: string) {
    |s| == 24 && forall i :: 0 <= i < |s| ==> IsHexChar(s[i])
  }

  /** `ObjectID.isValid(v)`: falsy values and values that are neither strings nor
      non-array objects are rejected outright; anything else must print as 24
      hexadecimal characters, in either case. */
  function IsValid(v: Value): (r: bool)
    ensures r <==> v.Str? && IsHex24(v.s)
  {
    if !Truthy(v) || (TypeOf(v) != "string" && (TypeOf(v) != "object" || v.Arr?)) then false
    else IsHex24(ToText(v))
  }

  /** `buffer(str)`: twelve numbers parsed from the character pairs of a
      24-character string, the twelve character codes of a 12-character string,
      and nothing for any other length. */
  function Buffer(s: string): (buf: seq<Option<nat>>)
    ensures |s| == 24 ==> |buf| == 12
    ensures |s| == 12 ==> |buf| == 12
  {
    if |s| == 24 then seq(12, i requires 0 <= i < 12 => ParseHex(s[2 * i..2 * i + 2]))
    else if |s| == 12 then seq(12, i requires 0 <= i < 12 => Some(s[i] as nat))
    else []
  }

  /** The bytes of a valid hexadecimal id are the values of its character pairs. */
  lemma BufferOfHex(s: string, i: nat)
    requires IsHex24(s)
    requires i < 12
    ensures Buffer(s)[i] == Some(16 * HexValue(s[2 * i]) + HexValue(s[2 * i + 1]))
  {
    var pair := s[2 * i..2 * i + 2];
    assert Buffer(s)[i] == ParseHex(pair);
    assert pair[0] == s[2 * i] && pair[1] == s[2 * i + 1];
    ParsePair(pair);
  }

  /** Two hexadecimal characters parse as one byte, high nibble first. */
  lemma ParsePair(pair: string)
    requires |pair| == 2 && IsHexChar(pair[0]) && IsHexChar(pair[1])
    ensures ParseHex(pair) == Some(16 * HexValue(pair[0]) + HexValue(pair[1]))
  {
    var rest := pair[1..];
    assert rest[0] == pair[1] && rest[1..] == [];
    assert ParseHexFrom(HexValue(pair[0]), rest) == ParseHexFrom(HexValue(pair[0]) * 16 + HexValue(pair[1]), []);
  }

  /** Each byte of a valid hexadecimal id prints as its own character pair, in
      lower case. */
  lemma PairText(s: string, i: nat)
    requires IsHex24(s)
    requires i < 12
    ensures Hex(2, Buffer(s)[i]) == Lower(s)[2 * i..2 * i + 2]
  {
    BufferOfHex(s, i);
    var b := 16 * HexValue(s[2 * i]) + HexValue(s[2 * i + 1]);
    HexOfByte(b);
    HexCharOfValue(s[2 * i]);
    HexCharOfValue(s[2 * i + 1]);
    assert b / 16 == HexValue(s[2 * i]) && b % 16 == HexValue(s[2 * i + 1]);
  }

  /** An ObjectID instance: the bytes it was built from. */
  datatype ObjectIdValue = ObjectIdValue(buf: seq<Option<nat>>)

  /** `new ObjectID(str)` for a string argument. */
  function FromString(arg: string): (r: Result<ObjectIdValue>)
    ensures r.Ok? <==> |arg| == 12 || IsHex24(arg)
    ensures r.Ok? ==> r.value.buf == Buffer(arg)
  {
    if |arg| != 12 && !IsValid(Str(arg)) then
      Err(Plain("Argument passed in must be a single String of 12 bytes or a string of 24 hex characters"))
    else Ok(ObjectIdValue(Buffer(arg)))
  }

  function HexOfBytes(buf: seq<Option<nat>>): string {
    if buf == [] then "" else Hex(2, buf[0]) + HexOfBytes(buf[1..])
  }

  /** The `str` getter (also `toHexString` and `toString`). */
  function StrOf(id: ObjectIdValue): string {
    HexOfBytes(id.buf)
  }

  /** `id.equals(other)`: `other` is truthy and prints as `id`'s hexadecimal text. */
  predicate EqualsValue(id: ObjectIdValue, other: Value) {
    Truthy(other) && StrOf(id) == ToText(other)
  }

  lemma {:induction false} HexOfBytesPrefix(s: string, k: nat)
    requires IsHex24(s)
    requires k <= 12
    ensures HexOfBytes(Buffer(s)[..k]) == Lower(s)[..2 * k]
  {
    if k > 0 {
      HexOfBytesPrefix(s, k - 1);
      PairText(s, k - 1);
      PrefixStep(Buffer(s), Lower(s), k - 1);
    }
  }

  lemma PrefixStep(buf: seq<Option<nat>>, text: string, i: nat)
    requires i < |buf| && 2 * i + 2 <= |text|
    requires HexOfBytes(buf[..i]) == text[..2 * i]
    requires Hex(2, buf[i]) == text[2 * i..2 * i + 2]
    ensures HexOfBytes(buf[..i + 1]) == text[..2 * i + 2]
  {
    var before := buf[..i];
    var after := buf[..i + 1];
    assert after == before + [buf[i]];
    HexOfBytesSnoc(before, buf[i]);
    calc {
      HexOfBytes(after);
      HexOfBytes(before) + Hex(2, buf[i]);
      text[..2 * i] + text[2 * i..2 * i + 2];
      { assert text[..2 * i + 2] == text[..2 * i] + text[2 * i..2 * i + 2]; }
      text[..2 * i + 2];
    }
  }

  lemma {:induction false} HexOfBytesSnoc(buf: seq<Option<nat>>, x: Option<nat>)
    ensures HexOfBytes(buf + [x]) == HexOfBytes(buf) + Hex(2, x)
  {
    if buf == [] {
      assert [] + [x] == [x];
    } else {
      assert (buf + [x])[1..] == buf[1..] + [x];
      HexOfBytesSnoc(buf[1..], x);
    }
  }

  lemma HexCharOfValue(c: char)
    requires IsHexChar(c)
    ensures HexChar(HexValue(c)) == LowerChar(c)
  {
  }

  /** The round trip of the codec: a valid hexadecimal string, turned into
      bytes and printed again, comes back in lower case. */
  lemma HexRoundTrip(s: string)
    requires IsValid(Str(s))
    ensures FromString(s).Ok?
    ensures StrOf(FromString(s).value) == Lower(s)
  {
    HexOfBytesPrefix(s, 12);
    assert Buffer(s)[..12] == Buffer(s);
    assert Lower(s)[..24] == Lower(s);
  }
}
