/** The pure string helpers of include/util.hpp. A C++ `char` is a Dafny
    `char` with the same code; byte strings handed to the SHA-1 helpers are
    sequences of `Byte`. */
module Util {
  import opened Wrappers
  import opened Types

  // ---------------------------------------------------------------------
  // escape_html
  // ---------------------------------------------------------------------

  /** The characters `escape_html` replaces by a numeric entity. */
  const EscapedChars: string := "<>%&#:;'\""

  predicate Escapable(c: char)
  {
    c in EscapedChars
  }

  /** How many characters of `s` `escape_html` rewrites. */
  function CountEscapable(s: string): nat
  {
    if s == [] then 0
    else (if Escapable(s[0]) then 1 else 0) + CountEscapable(s[1..])
  }

  function Digit(d: nat): (c: char)
    requires d < 10
    ensures '0' <= c <= '9'
  {
    ('0' as int + d) as char
  }

  predicate IsDigit(c: char)
  {
    '0' <= c <= '9'
  }

  /** The number a string of decimal digits spells. */
  function DigitsValue(s: string): nat
    requires forall i :: 0 <= i < |s| ==> IsDigit(s[i])
  {
    if s == [] then 0
    else
      assert IsDigit(s[|s| - 1]);
      DigitsValue(s[..|s| - 1]) * 10 + (s[|s| - 1] as int - '0' as int)
  }

  /** Decimal notation of `n` without leading zeros, as `fmt::format("{}")`
      prints a non-negative `int`. */
  function Decimal(n: nat): (r: string)
    ensures |r| >= 1
    ensures forall i :: 0 <= i < |r| ==> IsDigit(r[i])
    ensures DigitsValue(r) == n
    ensures r[0] == '0' ==> r == "0"
    decreases n
  {
    if n < 10 then [Digit(n)]
    else
      var p := Decimal(n / 10);
      var r := p + [Digit(n % 10)];
      assert r[..|r| - 1] == p;
      r
  }

  lemma DecimalTwoDigits(n: nat)
    requires 10 <= n < 100
    ensures Decimal(n) == [Digit(n / 10), Digit(n % 10)]
  {
    assert Decimal(n / 10) == [Digit(n / 10)];
  }

  /** What `escape_html` appends for one input character: the two-digit
      entity for an escapable one, the character itself otherwise. */
  function EscapeChar(c: char): (r: string)
    ensures Escapable(c) ==> 34 <= c as int <= 62 && r == ['&', '#', Digit(c as int / 10), Digit(c as int % 10), ';']
    ensures !Escapable(c) ==> r == [c]
  {
    if Escapable(c) then
      DecimalTwoDigits(c as int);
      "&#" + Decimal(c as int) + ";"
    else [c]
  }

  /** An entity is five characters long, and neither an entity nor a
      copied character holds a character that must be escaped, apart from
      the `&`, `#` and `;` of the entity itself. */
  lemma EscapeCharFacts(c: char)
    ensures |EscapeChar(c)| == if Escapable(c) then 5 else 1
    ensures forall i :: 0 <= i < |EscapeChar(c)| ==> EscapeChar(c)[i] !in "<>%:'\""
  {
    if Escapable(c) {
      assert EscapeChar(c) == ['&', '#', Digit(c as int / 10), Digit(c as int % 10), ';'];
    }
  }

  /** `escape_html`: each character of `EscapedChars` becomes
      `&#<decimal code>;`, every other character is copied, in order. */
  function EscapeHtml(html: string): (r: string)
    ensures |r| == |html| + 4 * CountEscapable(html)
    ensures CountEscapable(html) == 0 ==> r == html
    ensures |html| == 1 ==> r == EscapeChar(html[0])
    ensures forall i :: 0 <= i < |r| ==> r[i] !in "<>%:'\""
  {
    if html == [] then []
    else
      EscapeCharFacts(html[0]);
      EscapeChar(html[0]) + EscapeHtml(html[1..])
  }

  /** `escape_html` works character by character: escaping a
      concatenation escapes the parts independently. Together with the
      one-character case this fixes the output of every input. */
  lemma {:induction false} EscapeHtmlAppend(a: string, b: string)
    ensures EscapeHtml(a + b) == EscapeHtml(a) + EscapeHtml(b)
    decreases |a|
  {
    if a == [] {
      assert a + b == b;
    } else {
      assert (a + b)[0] == a[0];
      assert (a + b)[1..] == a[1..] + b;
      EscapeHtmlAppend(a[1..], b);
    }
  }

  /** Reads one two-digit numeric entity `&#dd;` back; anything else is
      taken literally. The inverse of `EscapeHtml`. */
  function UnescapeHtml(t: string): string
    decreases |t|
  {
    if |t| >= 5 && t[0] == '&' && t[1] == '#' && IsDigit(t[2]) && IsDigit(t[3]) && t[4] == ';' then
      [((t[2] as int - '0' as int) * 10 + (t[3] as int - '0' as int)) as char] + UnescapeHtml(t[5..])
    else if t == [] then []
    else [t[0]] + UnescapeHtml(t[1..])
  }

  lemma UnescapeEntity(c: char, tail: string)
    requires Escapable(c)
    ensures UnescapeHtml(EscapeChar(c) + tail) == [c] + UnescapeHtml(tail)
  {
    var t := EscapeChar(c) + tail;
    assert t[..5] == EscapeChar(c);
    assert t[5..] == tail;
    var d1, d2 := c as int / 10, c as int % 10;
    assert t[2] as int - '0' as int == d1;
    assert t[3] as int - '0' as int == d2;
  }

  lemma UnescapeLiteral(c: char, tail: string)
    requires !Escapable(c)
    ensures UnescapeHtml([c] + tail) == [c] + UnescapeHtml(tail)
  {
    assert EscapedChars[3] == '&';
    var t := [c] + tail;
    assert t[1..] == tail;
  }

  /** Escaping loses nothing: the entities decode to the input text. */
  lemma {:induction false} EscapeHtmlRoundTrip(html: string)
    ensures UnescapeHtml(EscapeHtml(html)) == html
    decreases |html|
  {
    if html != [] {
      var c, rest := html[0], html[1..];
      EscapeHtmlRoundTrip(rest);
      if Escapable(c) {
        UnescapeEntity(c, EscapeHtml(rest));
      } else {
        UnescapeLiteral(c, EscapeHtml(rest));
      }
      assert html == [c] + rest;
    }
  }

  // ---------------------------------------------------------------------
  // xor_sha1_key
  // ---------------------------------------------------------------------

  /** The SHA-1 block size in bytes. */
  const BlockSize: nat := 64

  /** The key padded to one block as in section 2 of RFC 2104: the first
      `BlockSize` key bytes, then zero bytes (a longer key is cut, not
      hashed). */
  function PaddedKey(key: seq<Byte>): (r: seq<Byte>)
    ensures |r| == BlockSize
    ensures forall i :: 0 <= i < BlockSize ==> r[i] == if i < |key| then key[i] else 0
  {
    if |key| >= BlockSize then key[..BlockSize]
    else key + seq(BlockSize - |key|, _ => 0 as Byte)
  }

  /** Every byte of `b` XOR-ed with `v`. */
  function XorAll(b: seq<Byte>, v: Byte): (r: seq<Byte>)
    ensures |r| == |b|
    ensures forall i :: 0 <= i < |b| ==> r[i] == b[i] ^ v
  {
    seq(|b|, i requires 0 <= i < |b| => b[i] ^ v)
  }

  /** XOR with the same value twice restores the block, so the inner and
      outer keys determine the padded key. */
  lemma XorAllInvolution(b: seq<Byte>, v: Byte)
    ensures XorAll(XorAll(b, v), v) == b
  {
  }

  /** `xor_sha1_key`: the ipad/opad step of HMAC-SHA1, written as the two
      loops of the C++ code. */
  method XorSha1Key(key: seq<Byte>, xorValue: Byte) returns (r: seq<Byte>)
    ensures |r| == BlockSize
    ensures forall i :: 0 <= i < BlockSize ==>
      r[i] == (if i < |key| then key[i] ^ xorValue else xorValue)
    ensures r == XorAll(PaddedKey(key), xorValue)
  {
    var keySize := if |key| < BlockSize then |key| else BlockSize;
    r := [];
    var i := 0;
    while i < keySize
      invariant 0 <= i <= keySize
      invariant |r| == i
      invariant forall j :: 0 <= j < i ==> r[j] == key[j] ^ xorValue
    {
      r := r + [key[i] ^ xorValue];
      i := i + 1;
    }
    while i < BlockSize
      invariant keySize <= i <= BlockSize
      invariant |r| == i
      invariant forall j :: 0 <= j < keySize ==> r[j] == key[j] ^ xorValue
      invariant forall j :: keySize <= j < i ==> r[j] == xorValue
    {
      r := r + [xorValue];
      i := i + 1;
    }
    XorOfPadded(key, xorValue, r);
  }

  lemma XorOfPadded(key: seq<Byte>, v: Byte, r: seq<Byte>)
    requires |r| == BlockSize
    requires forall i :: 0 <= i < BlockSize ==> r[i] == if i < |key| then key[i] ^ v else v
    ensures r == XorAll(PaddedKey(key), v)
  {
    var x := XorAll(PaddedKey(key), v);
    forall j | 0 <= j < BlockSize
      ensures r[j] == x[j]
    {
      if j >= |key| {
        assert PaddedKey(key)[j] == 0;
      }
    }
  }

  // ---------------------------------------------------------------------
  // string_to_hex
  // ---------------------------------------------------------------------

  const HexDigits: string := "0123456789abcdef"

  predicate IsHexDigit(c: char)
  {
    c in HexDigits
  }

  /** The value of one lower-case hex digit. */
  function NibbleValue(c: char): Option<Byte>
  {
    if '0' <= c <= '9' then Some((c as int - '0' as int) as Byte)
    else if 'a' <= c <= 'f' then Some((c as int - 'a' as int + 10) as Byte)
    else None
  }

  lemma NibbleOfHexDigit(k: nat)
    requires k < 16
    ensures NibbleValue(HexDigits[k]) == Some(k as Byte)
  {
    if k < 8 {
      if k < 4 {
        if k < 2 { } else { }
      } else {
        if k < 6 { } else { }
      }
    } else {
      if k < 12 {
        if k < 10 { } else { }
      } else {
        if k < 14 { } else { }
      }
    }
  }

  /** The digit for the high nibble, `hex_digits[c >> 4]`. */
  function HexHigh(b: Byte): (c: char)
    ensures IsHexDigit(c)
  {
    HexDigits[(b >> 4) as int]
  }

  /** The digit for the low nibble, `hex_digits[c & 15]`. */
  function HexLow(b: Byte): (c: char)
    ensures IsHexDigit(c)
  {
    HexDigits[(b & 15) as int]
  }

  /** `string_to_hex`: two lower-case hex digits per byte, high nibble
      first. */
  function StringToHex(input: seq<Byte>): (r: string)
    ensures |r| == 2 * |input|
    ensures forall i :: 0 <= i < |r| ==> IsHexDigit(r[i])
    ensures forall i :: 0 <= i < |input| ==> r[2 * i] == HexHigh(input[i]) && r[2 * i + 1] == HexLow(input[i])
  {
    if input == [] then []
    else
      var rest := StringToHex(input[1..]);
      HexCons(input, rest);
      [HexHigh(input[0]), HexLow(input[0])] + rest
  }

  lemma HexCons(input: seq<Byte>, rest: string)
    requires input != [] && |rest| == 2 * (|input| - 1)
    requires forall i :: 0 <= i < |rest| ==> IsHexDigit(rest[i])
    requires forall i :: 0 <= i < |input| - 1 ==>
      rest[2 * i] == HexHigh(input[1..][i]) && rest[2 * i + 1] == HexLow(input[1..][i])
    ensures var r := [HexHigh(input[0]), HexLow(input[0])] + rest;
      && |r| == 2 * |input|
      && (forall i :: 0 <= i < |r| ==> IsHexDigit(r[i]))
      && (forall i :: 0 <= i < |input| ==> r[2 * i] == HexHigh(input[i]) && r[2 * i + 1] == HexLow(input[i]))
  {
    var r := [HexHigh(input[0]), HexLow(input[0])] + rest;
    HexConsDigits(HexHigh(input[0]), HexLow(input[0]), rest);
    forall i | 0 <= i < |input|
      ensures r[2 * i] == HexHigh(input[i]) && r[2 * i + 1] == HexLow(input[i])
    {
      if i > 0 {
        HexConsPair(input, rest, i);
      }
    }
  }

  lemma HexConsDigits(h: char, l: char, rest: string)
    requires IsHexDigit(h) && IsHexDigit(l)
    requires forall i :: 0 <= i < |rest| ==> IsHexDigit(rest[i])
    ensures forall i :: 0 <= i < |rest| + 2 ==> IsHexDigit(([h, l] + rest)[i])
  {
    var r := [h, l] + rest;
    forall i | 0 <= i < |r|
      ensures IsHexDigit(r[i])
    {
      if i >= 2 {
        assert r[i] == rest[i - 2];
      }
    }
  }

  lemma HexConsPair(input: seq<Byte>, rest: string, i: nat)
    requires 0 < i < |input| && |rest| == 2 * (|input| - 1)
    requires rest[2 * (i - 1)] == HexHigh(input[1..][i - 1]) && rest[2 * (i - 1) + 1] == HexLow(input[1..][i - 1])
    ensures var r := [HexHigh(input[0]), HexLow(input[0])] + rest;
      r[2 * i] == HexHigh(input[i]) && r[2 * i + 1] == HexLow(input[i])
  {
    var k := 2 * (i - 1);
    assert input[i] == input[1..][i - 1];
    assert 2 * i == k + 2;
  }

  /** Parses pairs of lower-case hex digits back into bytes. */
  function HexToBytes(t: string): Option<seq<Byte>>
    decreases |t|
  {
    if t == [] then Some([])
    else if |t| == 1 then None
    else
      match (NibbleValue(t[0]), NibbleValue(t[1]), HexToBytes(t[2..]))
      case (Some(hi), Some(lo), Some(rest)) => Some([(hi << 4) | lo] + rest)
      case _ => None
  }

  lemma ByteAsInt(x: Byte)
    ensures (x as int) as Byte == x
  {
  }

  lemma NibblesRecombine(b: Byte)
    ensures ((b >> 4) << 4) | (b & 15) == b
  {
  }

  /** A nibble's digit reads back as that nibble. */
  lemma NibbleDecodes(x: Byte)
    requires x as int < 16
    ensures NibbleValue(HexDigits[x as int]) == Some(x)
  {
    NibbleOfHexDigit(x as int);
    ByteAsInt(x);
  }

  lemma HexPairDecodes(b: Byte)
    ensures NibbleValue(HexHigh(b)) == Some(b >> 4)
    ensures NibbleValue(HexLow(b)) == Some(b & 15)
    ensures ((b >> 4) << 4) | (b & 15) == b
  {
    var hi, lo := b >> 4, b & 15;
    assert hi as int < 16 && lo as int < 16;
    NibbleDecodes(hi);
    NibbleDecodes(lo);
    NibblesRecombine(b);
  }

  lemma HexToBytesCons(b: Byte, t: string)
    ensures HexToBytes([HexHigh(b), HexLow(b)] + t) ==
      match HexToBytes(t)
      case Some(rest) => Some([b] + rest)
      case None => None
  {
    var u := [HexHigh(b), HexLow(b)] + t;
    assert u[0] == HexHigh(b) && u[1] == HexLow(b) && u[2..] == t;
    HexPairDecodes(b);
  }

  /** Hex encoding is lossless. */
  lemma {:induction false} HexRoundTrip(input: seq<Byte>)
    ensures HexToBytes(StringToHex(input)) == Some(input)
    decreases |input|
  {
    if input != [] {
      HexRoundTrip(input[1..]);
      HexToBytesCons(input[0], StringToHex(input[1..]));
      assert input == [input[0]] + input[1..];
    }
  }

  // ---------------------------------------------------------------------
  // ltrim, rtrim, trim, strlower
  // ---------------------------------------------------------------------

  /** `std::isspace` in the "C" locale. */
  predicate IsSpace(c: char)
  {
    c == ' ' || c == '\t' || c == '\n' || c as int == 11 || c as int == 12 || c == '\r'
  }

  /** The `find_if(!isspace)` position from `pos` on, with the end for
      none. */
  function SkipSpace(s: string, pos: nat): (k: nat)
    requires pos <= |s|
    ensures pos <= k <= |s|
    ensures forall i :: pos <= i < k ==> IsSpace(s[i])
    ensures k < |s| ==> !IsSpace(s[k])
    decreases |s| - pos
  {
    if pos == |s| || !IsSpace(s[pos]) then pos else SkipSpace(s, pos + 1)
  }

  /** The reverse `find_if(!isspace)` below `end`, as the `base()`
      position just after the last non-space, or 0 for none. */
  function SkipSpaceBack(s: string, end: nat): (k: nat)
    requires end <= |s|
    ensures k <= end
    ensures forall i :: k <= i < end ==> IsSpace(s[i])
    ensures k > 0 ==> !IsSpace(s[k - 1])
    decreases end
  {
    if end == 0 || !IsSpace(s[end - 1]) then end else SkipSpaceBack(s, end - 1)
  }

  /** `ltrim`: drops the maximal leading run of white space. */
  function LTrim(s: string): (r: string)
    ensures |r| <= |s| && r == s[|s| - |r|..]
    ensures forall i :: 0 <= i < |s| - |r| ==> IsSpace(s[i])
    ensures r == [] || !IsSpace(r[0])
  {
    s[SkipSpace(s, 0)..]
  }

  /** `rtrim`: drops the maximal trailing run of white space. */
  function RTrim(s: string): (r: string)
    ensures |r| <= |s| && r == s[..|r|]
    ensures forall i :: |r| <= i < |s| ==> IsSpace(s[i])
    ensures r == [] || !IsSpace(r[|r| - 1])
  {
    s[..SkipSpaceBack(s, |s|)]
  }

  /** A prefix `r` of a suffix `l` of `s` is a slice of `s`, and the
      trailing part of `l` is the trailing part of `s`. */
  lemma PrefixOfSuffix(s: string, l: string, r: string)
    requires |l| <= |s| && l == s[|s| - |l|..]
    requires |r| <= |l| && r == l[..|r|]
    requires forall i :: |r| <= i < |l| ==> IsSpace(l[i])
    ensures var a := |s| - |l|;
      r == s[a..a + |r|] && forall i :: a + |r| <= i < |s| ==> IsSpace(s[i])
  {
    var a := |s| - |l|;
    forall i | a + |r| <= i < |s|
      ensures IsSpace(s[i])
    {
      assert s[i] == l[i - a];
    }
  }

  /** `trim`: `rtrim` after `ltrim`; what is left is the middle of `s`
      with white space only around it. */
  function Trim(s: string): (r: string)
    ensures var a := SkipSpace(s, 0);
      a + |r| <= |s| && r == s[a..a + |r|]
      && (forall i :: 0 <= i < a ==> IsSpace(s[i]))
      && (forall i :: a + |r| <= i < |s| ==> IsSpace(s[i]))
    ensures r == [] || (!IsSpace(r[0]) && !IsSpace(r[|r| - 1]))
  {
    var l := LTrim(s);
    var r := RTrim(l);
    PrefixOfSuffix(s, l, r);
    r
  }

  lemma {:induction false} TrimIdempotent(s: string)
    ensures Trim(Trim(s)) == Trim(s)
  {
    var t := Trim(s);
    assert LTrim(t) == t;
    assert RTrim(t) == t;
  }

  /** `::tolower` in the "C" locale: only `A`..`Z` change. */
  function ToLower(c: char): char
  {
    if 'A' <= c <= 'Z' then (c as int + 32) as char else c
  }

  predicate IsUpper(c: char)
  {
    'A' <= c <= 'Z'
  }

  /** `strlower`: same length, no upper-case letter left, each character
      equal to the input's ignoring case, and non-letters untouched. */
  function StrLower(s: string): (r: string)
    ensures |r| == |s|
    ensures forall i :: 0 <= i < |r| ==> !IsUpper(r[i])
    ensures forall i :: 0 <= i < |s| ==> ToLower(r[i]) == ToLower(s[i])
    ensures forall i :: 0 <= i < |s| && !IsUpper(s[i]) ==> r[i] == s[i]
  {
    seq(|s|, i requires 0 <= i < |s| => ToLower(s[i]))
  }

  lemma StrLowerIdempotent(s: string)
    ensures StrLower(StrLower(s)) == StrLower(s)
  {
  }

  // ---------------------------------------------------------------------
  // split_n
  // ---------------------------------------------------------------------

  /** The delimiters of `split_n`: space and tab. */
  const Delims: string := " \t"

  predicate IsDelim(c: char)
  {
    c in Delims
  }

  predicate NoDelim(w: string)
  {
    forall j :: 0 <= j < |w| ==> !IsDelim(w[j])
  }

  /** `std::string::find_first_not_of(Delims, pos)`, with `npos` as `|s|`. */
  function FindFirstNotDelim(s: string, pos: nat): (k: nat)
    requires pos <= |s|
    ensures pos <= k <= |s|
    ensures forall i :: pos <= i < k ==> IsDelim(s[i])
    ensures k < |s| ==> !IsDelim(s[k])
    decreases |s| - pos
  {
    if pos == |s| then |s|
    else if !IsDelim(s[pos]) then pos
    else FindFirstNotDelim(s, pos + 1)
  }

  /** `std::string::find_first_of(Delims, pos)`, with `npos` as `|s|`. */
  function FindFirstDelim(s: string, pos: nat): (k: nat)
    requires pos <= |s|
    ensures pos <= k <= |s|
    ensures forall i :: pos <= i < k ==> !IsDelim(s[i])
    ensures k < |s| ==> IsDelim(s[k])
    decreases |s| - pos
  {
    if pos == |s| then |s|
    else if IsDelim(s[pos]) then pos
    else FindFirstDelim(s, pos + 1)
  }

  function Max(a: int, b: int): int
  {
    if a < b then b else a
  }

  /** The loop of `split_n` resumed at offset `end` with `out` so far. */
  function SplitLoop(s: string, end: nat, n: nat, out: seq<string>): (r: seq<string>)
    requires end <= |s|
    ensures |out| <= |r| && r[..|out|] == out
    ensures forall i :: |out| <= i < |r| ==> r[i] != [] && !IsDelim(r[i][0])
    ensures forall i :: |out| <= i < |r| - 1 ==> NoDelim(r[i])
    ensures |r| <= Max(|out|, n) + 1
    ensures (forall i :: end <= i < |s| ==> IsDelim(s[i])) ==> r == out
    decreases |s| - end
  {
    var start := FindFirstNotDelim(s, end);
    if start == |s| then out
    else if |out| >= n then out + [s[start..]]
    else
      var e := FindFirstDelim(s, start);
      SplitLoop(s, e, n, out + [s[start..e]])
  }

  /** `n` as a C `int`. */
  predicate IsInt32(n: int)
  {
    -0x8000_0000 <= n < 0x8000_0000
  }

  /** The `size_t` value an `int` converts to in `out.size() < n`: a
      negative count wraps around to a limit no `deque` reaches. */
  function SizeLimit(n: int): (m: nat)
    requires IsInt32(n)
    ensures n >= 0 ==> m == n
    ensures n < 0 ==> m >= 0xFFFF_FFFF_8000_0000
  {
    if n >= 0 then n else 0x1_0000_0000_0000_0000 + n
  }

  /** `split_n(str, n, out)`: the final contents of `out`. */
  function SplitN(str: string, n: int, out: seq<string>): (r: seq<string>)
    requires IsInt32(n)
    ensures |out| <= |r| && r[..|out|] == out
    ensures forall i :: |out| <= i < |r| ==> r[i] != [] && !IsDelim(r[i][0])
    ensures forall i :: |out| <= i < |r| - 1 ==> NoDelim(r[i])
    ensures |r| <= Max(|out|, SizeLimit(n)) + 1
    ensures (forall i :: 0 <= i < |str| ==> IsDelim(str[i])) ==> r == out
  {
    SplitLoop(str, 0, SizeLimit(n), out)
  }

  /** The maximal delimiter-free prefix of `s`. */
  function Run(s: string): (w: string)
    ensures |w| <= |s| && w == s[..|w|] && NoDelim(w)
    ensures |w| < |s| ==> IsDelim(s[|w|])
    decreases |s|
  {
    if s == [] || IsDelim(s[0]) then [] else [s[0]] + Run(s[1..])
  }

  /** The space/tab separated words of `s`, in order: the reference that
      `split_n` is measured against. */
  function Words(s: string): seq<string>
    decreases |s|
  {
    if s == [] then []
    else if IsDelim(s[0]) then Words(s[1..])
    else var w := Run(s); [w] + Words(s[|w|..])
  }

  /** Every word holds at least one character. */
  lemma {:induction false} WordsShorter(s: string)
    ensures |Words(s)| <= |s|
    decreases |s|
  {
    if s != [] {
      if IsDelim(s[0]) {
        WordsShorter(s[1..]);
      } else {
        WordsShorter(s[|Run(s)|..]);
      }
    }
  }

  lemma {:induction false} WordsSkipDelims(s: string, pos: nat)
    requires pos <= |s|
    ensures Words(s[pos..]) == Words(s[FindFirstNotDelim(s, pos)..])
    decreases |s| - pos
  {
    if pos < |s| && IsDelim(s[pos]) {
      assert s[pos..][1..] == s[pos + 1..];
      WordsSkipDelims(s, pos + 1);
    }
  }

  /** The word starting at `start` ends at the next delimiter. */
  lemma {:induction false} RunFrom(s: string, start: nat)
    requires start <= |s|
    ensures Run(s[start..]) == s[start..FindFirstDelim(s, start)]
    decreases |s| - start
  {
    if start < |s| && !IsDelim(s[start]) {
      RunFrom(s, start + 1);
      assert s[start..][1..] == s[start + 1..];
      var e := FindFirstDelim(s, start);
      assert s[start..e] == [s[start]] + s[start + 1..e];
    }
  }

  lemma WordsAt(s: string, start: nat)
    requires start < |s| && !IsDelim(s[start])
    ensures var e := FindFirstDelim(s, start);
      Words(s[start..]) == [s[start..e]] + Words(s[e..])
  {
    RunFrom(s, start);
    var t := s[start..];
    var w := Run(t);
    var e := FindFirstDelim(s, start);
    assert t[0] == s[start];
    assert Words(t) == [w] + Words(t[|w|..]);
    assert |w| == e - start;
    assert t[|w|..] == s[e..];
  }

  /** While the limit is not reached, the loop emits exactly the words. */
  lemma {:induction false} SplitLoopWords(s: string, end: nat, n: nat, out: seq<string>)
    requires end <= |s|
    requires |out| + |Words(s[end..])| <= n
    ensures SplitLoop(s, end, n, out) == out + Words(s[end..])
    decreases |s| - end
  {
    var start := FindFirstNotDelim(s, end);
    WordsSkipDelims(s, end);
    if start == |s| {
      assert Words(s[start..]) == [];
    } else {
      WordsAt(s, start);
      var e := FindFirstDelim(s, start);
      SplitLoopWords(s, e, n, out + [s[start..e]]);
    }
  }

  /** `w` is the text of `s` from some position to its end. */
  predicate IsSuffix(w: string, s: string)
  {
    |w| <= |s| && w == s[|s| - |w|..]
  }

  /** After the limit: one more element after the first `k` words, and
      that element is the rest of `s` verbatim, holding exactly the
      remaining words. */
  predicate OverflowShape(r: seq<string>, out: seq<string>, n: nat, ws: seq<string>, s: string)
  {
    var k := Max(0, n - |out|);
    k <= |ws| && |r| == Max(|out|, n) + 1
    && r[..|r| - 1] == out + ws[..k]
    && Words(r[|r| - 1]) == ws[k..]
    && IsSuffix(r[|r| - 1], s)
  }

  lemma OverflowShift(r: seq<string>, out: seq<string>, w: string, n: nat, ws': seq<string>, s: string)
    requires |out| < n
    requires OverflowShape(r, out + [w], n, ws', s)
    ensures OverflowShape(r, out, n, [w] + ws', s)
  {
    var k := n - |out|;
    var ws := [w] + ws';
    assert ws'[k - 1..] == ws[k..];
    assert (out + [w]) + ws'[..k - 1] == out + ws[..k];
  }

  /** Once the limit is reached, the rest of the text, from the next word
      on, is one more element, and it holds exactly the words not yet
      emitted. */
  lemma {:induction false} SplitLoopOverflow(s: string, end: nat, n: nat, out: seq<string>)
    requires end <= |s|
    requires Words(s[end..]) != [] && |out| + |Words(s[end..])| > n
    ensures OverflowShape(SplitLoop(s, end, n, out), out, n, Words(s[end..]), s)
    decreases |s| - end
  {
    var start := FindFirstNotDelim(s, end);
    WordsSkipDelims(s, end);
    var ws := Words(s[end..]);
    if start == |s| {
      assert false;
    } else if |out| >= n {
      var r := out + [s[start..]];
      assert SplitLoop(s, end, n, out) == r;
      assert r[..|r| - 1] == out;
      assert ws[..0] == [] && ws[0..] == ws;
    } else {
      WordsAt(s, start);
      var e := FindFirstDelim(s, start);
      var w := s[start..e];
      assert SplitLoop(s, end, n, out) == SplitLoop(s, e, n, out + [w]);
      var ws' := Words(s[e..]);
      assert ws == [w] + ws';
      SplitLoopOverflow(s, e, n, out + [w]);
      OverflowShift(SplitLoop(s, e, n, out + [w]), out, w, n, ws', s);
    }
  }

  /** While the limit is not reached, `split_n` emits the words of `str`
      one per element, in order. */
  lemma SplitNWithinLimit(str: string, n: int, out: seq<string>)
    requires IsInt32(n)
    requires |out| + |Words(str)| <= SizeLimit(n)
    ensures SplitN(str, n, out) == out + Words(str)
  {
    assert str[0..] == str;
    SplitLoopWords(str, 0, SizeLimit(n), out);
  }

  /** Past the limit, the first words fill `out` up to `n` entries, and one
      more element holds the rest of the line verbatim: a suffix of `str`
      starting at the next word, delimiters included, whose words are
      exactly the remaining ones. */
  lemma SplitNOverflow(str: string, n: int, out: seq<string>)
    requires IsInt32(n)
    requires Words(str) != [] && |out| + |Words(str)| > SizeLimit(n)
    ensures var r := SplitN(str, n, out);
      var ws := Words(str);
      var k := Max(0, SizeLimit(n) - |out|);
      && |r| == Max(|out|, SizeLimit(n)) + 1 && r[..|r| - 1] == out + ws[..k]
      && Words(r[|r| - 1]) == ws[k..] && IsSuffix(r[|r| - 1], str)
  {
    assert str[0..] == str;
    SplitLoopOverflow(str, 0, SizeLimit(n), out);
  }

  /** A negative count imposes no limit: every word becomes its own
      element. */
  lemma {:induction false} SplitNNegativeSplitsAll(str: string, n: int, out: seq<string>)
    requires IsInt32(n) && n < 0
    requires |out| + |str| <= 0xFFFF_FFFF_8000_0000
    ensures SplitN(str, n, out) == out + Words(str)
  {
    WordsShorter(str);
    SplitNWithinLimit(str, n, out);
  }
}
