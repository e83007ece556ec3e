/**
 * src/base/base64.cc.  The reference is the text of sections 4 and 5 of RFC 4648: 24-bit groups, cut into
 * four 6-bit digits.
 */
module Base64 {
  import opened Wrappers
  import opened Bits

  const PADDING := '='
  const ENC_TABLE := "ABCDEFGHIJKLM" + "NOPQRSTUVWXYZ" + "abcdefghijklm" + "nopqrstuvwxyz" + "0123456789" + "+/"
  /** The value of characters outside the alphabets. */
  const INVALID: int := 0xff
  const MIN_CHAR := '+'
  const MAX_CHAR := 'z'
  /** From '+' to 'z'. */
  const DEC_TABLE: seq<int> :=
    [62, INVALID, 62, INVALID, 63, 52, 53, 54, 55, 56] +
    [57, 58, 59, 60, 61, INVALID, INVALID, INVALID, 0, INVALID] +
    [INVALID, INVALID, 0, 1, 2, 3, 4, 5, 6, 7] +
    [8, 9, 10, 11, 12, 13, 14, 15, 16, 17] +
    [18, 19, 20, 21, 22, 23, 24, 25, INVALID, INVALID] +
    [INVALID, INVALID, 63, INVALID, 26, 27, 28, 29, 30, 31] +
    [32, 33, 34, 35, 36, 37, 38, 39, 40, 41] +
    [42, 43, 44, 45, 46, 47, 48, 49, 50, 51]

  function DecodeChar(c: char): int {
    if c < MIN_CHAR || c > MAX_CHAR then INVALID else DEC_TABLE[c as int - MIN_CHAR as int]
  }

  /** The characters the decoder takes: both alphabets, and the padding, which counts as zero. */
  predicate Accepted(c: char) {
    'A' <= c <= 'Z' || 'a' <= c <= 'z' || '0' <= c <= '9' || c in {'+', '/', '-', '_', PADDING}
  }

  /** The digit a character of either alphabet stands for, by the tables 1 and 2 of RFC 4648. */
  function Digit(c: char): (d: int)
    requires Accepted(c)
    ensures 0 <= d < 64
  {
    if 'A' <= c <= 'Z' then c as int - 'A' as int
    else if 'a' <= c <= 'z' then c as int - 'a' as int + 26
    else if '0' <= c <= '9' then c as int - '0' as int + 52
    else if c == '+' || c == '-' then 62
    else if c == '/' || c == '_' then 63
    else 0
  }

  function Meaning(c: char): int {
    if Accepted(c) then Digit(c) else INVALID
  }

  lemma LowEntries(i: nat)
    requires i < 40
    ensures DEC_TABLE[i] == Meaning((MIN_CHAR as int + i) as char)
  {
  }

  lemma HighEntries(i: nat)
    requires 40 <= i < 80
    ensures DEC_TABLE[i] == Meaning((MIN_CHAR as int + i) as char)
  {
  }

  /** The lookup table is right, entry by entry, and nothing outside it is accepted. */
  lemma DecodeCharMeaning(c: char)
    ensures DecodeChar(c) == Meaning(c)
  {
    if MIN_CHAR <= c <= MAX_CHAR {
      var i := c as int - MIN_CHAR as int;
      if i < 40 {
        LowEntries(i);
      } else {
        HighEntries(i);
      }
    }
  }

  /** The character stands for the digit in the standard alphabet. */
  predicate Stands(c: char, v: int) {
    Accepted(c) && Digit(c) == v && c !in {PADDING, '-', '_'}
  }

  lemma LowDigits(v: nat)
    requires v < 32
    ensures Stands(ENC_TABLE[v], v)
  {
  }

  lemma HighDigits(v: nat)
    requires 32 <= v < 64
    ensures Stands(ENC_TABLE[v], v)
  {
  }

  /** The 64 characters of a table stand for their indices. */
  ghost predicate IsAlphabet(table: string) {
    |table| == 64 && forall v :: 0 <= v < 64 ==> Stands(table[v], v)
  }

  lemma TableIsAlphabet()
    ensures IsAlphabet(ENC_TABLE)
  {
    forall v | 0 <= v < 64 ensures Stands(ENC_TABLE[v], v) {
      if v < 32 {
        LowDigits(v);
      } else {
        HighDigits(v);
      }
    }
  }

  function EncSize(n: nat): nat {
    (n + 2) / 3 * 4
  }

  function DecSize(n: nat): nat {
    (n + 3) / 4 * 3
  }

  // ----- encoding

  /** The four digits of the next group of up to three bytes, as the code cuts them out. */
  function GroupDigits(x: seq<Byte>): (d: seq<int>)
    requires x != []
    ensures |d| == 4 && forall i :: 0 <= i < 4 ==> 0 <= d[i] < 64
  {
    var s0, s1, s2 := x[0], if |x| > 1 then x[1] else 0, if |x| > 2 then x[2] else 0;
    [s0 / 4, s0 % 4 * 16 + s1 / 16, s1 % 16 * 4 + s2 / 64, s2 % 64]
  }

  /** The next four characters, with padding in place of the digits that hold no bit of the input. */
  function Group(table: string, x: seq<Byte>): (g: string)
    requires |table| == 64 && x != []
    ensures |g| == 4
  {
    var d := GroupDigits(x);
    [table[d[0]], table[d[1]], if |x| > 1 then table[d[2]] else PADDING,
     if |x| > 2 then table[d[3]] else PADDING]
  }

  function Rest<T>(s: seq<T>, n: nat): seq<T> {
    if |s| > n then s[n..] else []
  }

  function Encoded(table: string, x: seq<Byte>): string
    requires |table| == 64
    decreases |x|
  {
    if x == [] then "" else Group(table, x) + Encoded(table, Rest(x, 3))
  }

  lemma {:induction false} EncodedSize(table: string, x: seq<Byte>)
    requires |table| == 64
    ensures |Encoded(table, x)| == EncSize(|x|)
    decreases |x|
  {
    if x != [] {
      EncodedSize(table, Rest(x, 3));
    }
  }

  /** The 24-bit number that four digits, or three bytes, spell out. */
  function DigitsNumber(d: seq<int>): int
    requires |d| == 4
  {
    d[0] * 262144 + d[1] * 4096 + d[2] * 64 + d[3]
  }

  function BytesNumber(x: seq<Byte>): int
    requires x != []
  {
    x[0] as int * 65536 + (if |x| > 1 then x[1] as int * 256 else 0) + if |x| > 2 then x[2] else 0
  }

  /**
   * The encoding of section 4 of RFC 4648: group by group the bytes, with zeros for missing ones, form a
   * 24-bit number, and the characters are its digits to the base 64; a group of one byte ends in two
   * padding characters, one of two bytes in one.
   */
  ghost predicate IsEncoding(table: string, x: seq<Byte>, e: string)
    requires |table| == 64
    decreases |x|
  {
    if x == [] then e == ""
    else
      |e| >= 4 && IsEncoding(table, Rest(x, 3), e[4..]) &&
      exists d: seq<int> {:trigger DigitsNumber(d)} ::
        |d| == 4 && (forall i :: 0 <= i < 4 ==> 0 <= d[i] < 64) &&
        DigitsNumber(d) == BytesNumber(x) &&
        e[0] == table[d[0]] && e[1] == table[d[1]] &&
        e[2] == (if |x| > 1 then table[d[2]] else PADDING) &&
        e[3] == if |x| > 2 then table[d[3]] else PADDING
  }

  lemma GroupDigitsSpell(x: seq<Byte>)
    requires x != []
    ensures DigitsNumber(GroupDigits(x)) == BytesNumber(x)
  {
  }

  /** What the code computes is that encoding. */
  lemma {:induction false} EncodedIsEncoding(table: string, x: seq<Byte>)
    requires |table| == 64
    ensures IsEncoding(table, x, Encoded(table, x))
    decreases |x|
  {
    if x != [] {
      GroupDigitsSpell(x);
      EncodedIsEncoding(table, Rest(x, 3));
      assert Encoded(table, x)[4..] == Encoded(table, Rest(x, 3));
      assert DigitsNumber(GroupDigits(x)) == BytesNumber(x);
    }
  }

  /** The top six bits of a byte, and the rest as it goes into the next digit: by the bit operators of the code. */
  method TopDigit(s0: Byte) returns (digit: int, carry0: int)
    ensures digit == s0 / 4 && carry0 == s0 % 4 * 16
  {
    SameValue(s0);
    var b := s0 as bv8;
    Parts(b);
    ShiftLow(b);
    digit, carry0 := (b >> 2) as int, ((b & 0x03) << 4) as int;
  }

  /** What the first byte carries over, with the top four bits of the second, and the rest of that. */
  method NextDigit(s0: Byte, s1: Byte) returns (digit: int, carry1: int)
    ensures digit == s0 % 4 * 16 + s1 / 16 && carry1 == s1 % 16 * 4
  {
    SameValue(s0);
    SameValue(s1);
    var a, b := s0 as bv8, s1 as bv8;
    SecondDigit(a, b);
    Parts(b);
    ShiftLow(b);
    digit, carry1 := (((a & 0x03) << 4) | (b >> 4)) as int, ((b & 0x0f) << 2) as int;
  }

  /** What the second byte carries over, with the top two bits of the third, and the rest of that. */
  method LastDigits(s1: Byte, s2: Byte) returns (third: int, fourth: int)
    ensures third == s1 % 16 * 4 + s2 / 64 && fourth == s2 % 64
  {
    SameValue(s1);
    SameValue(s2);
    var b, c := s1 as bv8, s2 as bv8;
    ThirdDigit(b, c);
    Parts(c);
    third, fourth := (((b & 0x0f) << 2) | (c >> 6)) as int, (c & 0x3f) as int;
  }

  /** The body of the loop: the next four characters from up to three bytes. */
  method EncodeGroup(table: string, src: seq<Byte>, rd0: nat, dst: array<char>, wr: nat) returns (rd: nat)
    requires |table| == 64 && rd0 < |src| && wr + 4 <= dst.Length
    modifies dst
    ensures rd == if rd0 + 3 < |src| then rd0 + 3 else |src|
    ensures dst[wr..wr + 4] == Group(table, src[rd0..])
    ensures forall i :: 0 <= i < dst.Length && !(wr <= i < wr + 4) ==> dst[i] == old(dst[i])
  {
    ghost var g := Group(table, src[rd0..]);
    rd := rd0;
    var s0 := src[rd];
    rd := rd + 1;
    var first, carry0 := TopDigit(s0);
    dst[wr] := table[first];
    if rd < |src| {
      var s1 := src[rd];
      rd := rd + 1;
      var second, carry1 := NextDigit(s0, s1);
      dst[wr + 1] := table[second];
      if rd < |src| {
        var s2 := src[rd];
        rd := rd + 1;
        var third, fourth := LastDigits(s1, s2);
        dst[wr + 2], dst[wr + 3] := table[third], table[fourth];
      } else {
        dst[wr + 2], dst[wr + 3] := table[carry1], PADDING;
      }
    } else {
      dst[wr + 1], dst[wr + 2], dst[wr + 3] := table[carry0], PADDING, PADDING;
    }
    assert dst[wr] == g[0] && dst[wr + 1] == g[1] && dst[wr + 2] == g[2] && dst[wr + 3] == g[3];
  }

  lemma EncodedJoin(table: string, done: string, x: seq<Byte>)
    requires |table| == 64 && x != []
    ensures done + Encoded(table, x) == (done + Group(table, x)) + Encoded(table, Rest(x, 3))
  {
    assert Encoded(table, x) == Group(table, x) + Encoded(table, Rest(x, 3));
  }

  /** The encoding loop, once there is room for the result. */
  method EncodeInto(table: string, src: seq<Byte>, dst: array<char>) returns (wr: nat)
    requires |table| == 64 && |Encoded(table, src)| <= dst.Length
    modifies dst
    ensures wr == |Encoded(table, src)| && dst[..wr] == Encoded(table, src)
    ensures forall i :: wr <= i < dst.Length ==> dst[i] == old(dst[i])
  {
    var rd;
    rd, wr := 0, 0;
    assert src[0..] == src;
    while rd < |src|
      invariant rd <= |src| && wr <= dst.Length
      invariant dst[..wr] + Encoded(table, src[rd..]) == Encoded(table, src)
      invariant forall i :: wr <= i < dst.Length ==> dst[i] == old(dst[i])
    {
      ghost var rest, done := src[rd..], dst[..wr];
      EncodedJoin(table, done, rest);
      rd := EncodeGroup(table, src, rd, dst, wr);
      assert dst[..wr + 4] == done + dst[wr..wr + 4];
      assert src[rd..] == Rest(rest, 3);
      wr := wr + 4;
    }
    assert src[rd..] == [] && dst[..wr] + [] == dst[..wr];
  }

  method Encode(src: seq<Byte>, dst: array<char>) returns (size: int)
    modifies dst
    ensures dst.Length < EncSize(|src|) ==> size == -1 && dst[..] == old(dst[..])
    ensures dst.Length >= EncSize(|src|) ==>
              size == EncSize(|src|) && IsEncoding(ENC_TABLE, src, dst[..size]) &&
              dst[..size] == Encoded(ENC_TABLE, src) && dst[size..] == old(dst[size..])
  {
    EncodedIsEncoding(ENC_TABLE, src);
    EncodedSize(ENC_TABLE, src);
    if dst.Length < EncSize(|src|) {
      return -1;
    }
    size := EncodeInto(ENC_TABLE, src, dst);
  }

  // ----- decoding

  /** The character at `j` of a group that may be cut short. */
  function CharAt(s: string, j: nat): char {
    if j < |s| then s[j] else if j < 2 then '\0' else PADDING
  }

  /** The three bytes of a group of four digits, as the code puts them together. */
  function GroupBytes(d0: int, d1: int, d2: int, d3: int): (r: seq<Byte>)
    ensures |r| == 3
  {
    [(d0 * 4 + d1 / 16) % 256, (d1 * 16 + d2 / 4) % 256, (d2 * 64 + d3) % 256]
  }

  /** Every character has a digit, or is invalid. */
  ghost predicate GivesDigits(dec: char -> int) {
    forall c :: dec(c) == INVALID || 0 <= dec(c) < 64
  }

  function BytesOf(dec: char -> int, c0: char, c1: char, c2: char, c3: char): seq<Byte>
  {
    GroupBytes(dec(c0), dec(c1), dec(c2), dec(c3))
  }

  /** The bytes spell the same 24-bit number as the digits. */
  lemma GroupBytesSpell(d0: int, d1: int, d2: int, d3: int)
    requires 0 <= d0 < 64 && 0 <= d1 < 64 && 0 <= d2 < 64 && 0 <= d3 < 64
    ensures BytesNumber(GroupBytes(d0, d1, d2, d3)) == DigitsNumber([d0, d1, d2, d3])
  {
    HighAndLow(d0, d1);
    MiddleParts(d1, d2);
    LowParts(d2, d3);
  }

  lemma HighAndLow(d0: int, d1: int)
    requires 0 <= d0 < 64 && 0 <= d1 < 64
    ensures (d0 * 4 + d1 / 16) % 256 == d0 * 4 + d1 / 16
  {
  }

  lemma MiddleParts(d1: int, d2: int)
    requires 0 <= d1 < 64 && 0 <= d2 < 64
    ensures (d1 * 16 + d2 / 4) % 256 == d1 * 16 + d2 / 4 - d1 / 16 * 256
  {
  }

  lemma LowParts(d2: int, d3: int)
    requires 0 <= d2 < 64 && 0 <= d3 < 64
    ensures (d2 * 64 + d3) % 256 == d2 * 64 + d3 - d2 / 4 * 256
  {
  }

  /** Three bytes are determined by the number they spell. */
  lemma BytesUnique(x: seq<Byte>, y: seq<Byte>)
    requires |x| == 3 && |y| == 3 && BytesNumber(x) == BytesNumber(y)
    ensures x == y
  {
    assert x[0] == y[0] && x[1] == y[1] && x[2] == y[2];
  }

  /** How many bytes of the last group are padding. */
  function Padded(c2: char, c3: char): nat {
    (if c3 == PADDING then 1 else 0) + (if c2 == PADDING then 1 else 0)
  }

  predicate GroupAccepted(dec: char -> int, s: string) {
    dec(CharAt(s, 0)) != INVALID && dec(CharAt(s, 1)) != INVALID &&
    dec(CharAt(s, 2)) != INVALID && dec(CharAt(s, 3)) != INVALID
  }

  /** What the decoder makes of a text: four characters a group, the last one possibly cut short. */
  function Decoded(dec: char -> int, s: string): (r: Option<seq<Byte>>)
    ensures r.Some? ==> |r.value| <= DecSize(|s|)
  {
    if s == [] then Some([])
    else if !GroupAccepted(dec, s) then None
    else
      var bytes := BytesOf(dec, CharAt(s, 0), CharAt(s, 1), CharAt(s, 2), CharAt(s, 3));
      if |s| <= 4 then Some(bytes[..3 - Padded(CharAt(s, 2), CharAt(s, 3))])
      else
        match Decoded(dec, s[4..])
        case None => None
        case Some(rest) => Some(bytes + rest)
  }

  /** Read one group, character by character; fails at the first character that is not accepted. */
  method ReadGroup(dec: char -> int, src: string, rd0: nat) returns (ok: bool, rd: nat, s: seq<char>, d: seq<int>)
    requires rd0 < |src|
    ensures ok <==> GroupAccepted(dec, src[rd0..])
    ensures ok ==> |s| == 4 && |d| == 4 && rd == (if rd0 + 4 <= |src| then rd0 + 4 else |src|)
    ensures ok ==> forall k :: 0 <= k < 4 ==>
              s[k] == CharAt(src[rd0..], k) && dec(s[k]) != INVALID && d[k] == dec(s[k])
  {
    s, d, rd := ['\0', '\0', '\0', '\0'], [0, 0, 0, 0], rd0;
    for j := 0 to 4
      invariant |s| == 4 && |d| == 4 && rd == (if rd0 + j <= |src| then rd0 + j else |src|)
      invariant forall k :: 0 <= k < j ==>
                  s[k] == CharAt(src[rd0..], k) && dec(s[k]) != INVALID && d[k] == dec(s[k])
    {
      var c := if rd < |src| then src[rd] else if j < 2 then '\0' else PADDING;
      if rd < |src| {
        rd := rd + 1;
      }
      s := s[j := c];
      d := d[j := dec(c)];
      if d[j] == INVALID {
        return false, rd, s, d;
      }
    }
    ok := true;
  }

  /** One group more: what is decoded so far, in front of what the rest decodes to. */
  lemma DecodedStep(dec: char -> int, s: string)
    requires s != [] && GroupAccepted(dec, s)
    ensures var bytes := BytesOf(dec, CharAt(s, 0), CharAt(s, 1), CharAt(s, 2), CharAt(s, 3));
            Decoded(dec, s) == if |s| <= 4 then Some(bytes[..3 - Padded(CharAt(s, 2), CharAt(s, 3))])
                          else Appended(bytes, Decoded(dec, s[4..]))
  {
  }

  // The three bytes, put together by the bit operators of the code.

  method AssembleFirst(v0: int, v1: int) returns (b: Byte)
    requires 0 <= v0 < 64 && 0 <= v1 < 64
    ensures b == (v0 * 4 + v1 / 16) % 256
  {
    SameValue(v0);
    SameValue(v1);
    var d0, d1 := v0 as bv8, v1 as bv8;
    FirstByte(d0, d1);
    HighAndLow(v0, v1);
    b := ((d0 << 2) | (d1 >> 4)) as int;
  }

  method AssembleSecond(v1: int, v2: int) returns (b: Byte)
    requires 0 <= v1 < 64 && 0 <= v2 < 64
    ensures b == (v1 * 16 + v2 / 4) % 256
  {
    SameValue(v1);
    SameValue(v2);
    var d1, d2 := v1 as bv8, v2 as bv8;
    SecondByte(d1, d2);
    MiddleParts(v1, v2);
    b := ((d1 << 4) | (d2 >> 2)) as int;
  }

  method AssembleThird(v2: int, v3: int) returns (b: Byte)
    requires 0 <= v2 < 64 && 0 <= v3 < 64
    ensures b == (v2 * 64 + v3) % 256
  {
    SameValue(v2);
    SameValue(v3);
    var d2, d3 := v2 as bv8, v3 as bv8;
    ThirdByte(d2, d3);
    LowParts(v2, v3);
    b := ((d2 << 6) | d3) as int;
  }

  /** Decode one group into `dst`. */
  method DecodeGroup(dec: char -> int, src: string, rd0: nat, dst: array<Byte>, wr: nat)
    returns (ok: bool, rd: nat, s: seq<char>)
    requires GivesDigits(dec) && rd0 < |src| && wr + 3 <= dst.Length
    modifies dst
    ensures ok <==> GroupAccepted(dec, src[rd0..])
    ensures ok ==>
              |s| == 4 && (forall k :: 0 <= k < 4 ==> s[k] == CharAt(src[rd0..], k)) &&
              rd == (if rd0 + 4 <= |src| then rd0 + 4 else |src|) &&
              dst[wr..wr + 3] == BytesOf(dec, s[0], s[1], s[2], s[3])
    ensures forall i :: 0 <= i < dst.Length && !(wr <= i < wr + 3) ==> dst[i] == old(dst[i])
  {
    var d;
    ok, rd, s, d := ReadGroup(dec, src, rd0);
    if ok {
      dst[wr] := AssembleFirst(d[0], d[1]);
      dst[wr + 1] := AssembleSecond(d[1], d[2]);
      dst[wr + 2] := AssembleThird(d[2], d[3]);
      assert dst[wr..wr + 3] == [dst[wr], dst[wr + 1], dst[wr + 2]];
    }
  }

  method DecodeWith(dec: char -> int, src: string, dst: array<Byte>) returns (size: int)
    requires GivesDigits(dec)
    modifies dst
    ensures size == -1 <==> dst.Length < DecSize(|src|) || Decoded(dec, src).None?
    ensures size != -1 ==> 0 <= size <= DecSize(|src|) && Some(dst[..size]) == Decoded(dec, src)
    ensures forall i :: DecSize(|src|) <= i < dst.Length ==> dst[i] == old(dst[i])
    ensures dst.Length < DecSize(|src|) ==> dst[..] == old(dst[..])
  {
    if dst.Length < DecSize(|src|) {
      return -1;
    }
    var rd, wr := 0, 0;
    var s: seq<char> := ['\0', '\0', '\0', '\0'];
    ProgressStart(dec, src, s);
    while rd < |src|
      invariant rd <= |src| && wr <= DecSize(|src|)
      invariant Progress(dec, src, rd, dst[..wr], s)
      invariant forall i :: wr <= i < dst.Length ==> dst[i] == old(dst[i])
    {
      ghost var done := dst[..wr];
      GroupsFit(|src|, rd, wr);
      var ok, rd', group := DecodeGroup(dec, src, rd, dst, wr);
      if !ok {
        DecodedFails(dec, src, rd, done, s);
        return -1;
      }
      ProgressStep(dec, src, rd, done, s, rd', dst[wr..wr + 3], group);
      assert dst[..wr + 3] == done + dst[wr..wr + 3];
      wr, rd, s := wr + 3, rd', group;
    }
    size := wr - Padded(s[2], s[3]);
    assert dst[..wr][..size] == dst[..size];
  }

  /**
   * The first `rd` characters have become `out`.  At the end, `s` is the last group, whose padding has
   * still to be taken off.
   */
  ghost predicate Progress(dec: char -> int, src: string, rd: nat, out: seq<Byte>, s: seq<char>) {
    |s| == 4 &&
    if rd < |src| then 4 * |out| == 3 * rd && Decoded(dec, src) == Appended(out, Decoded(dec, src[rd..]))
    else
      |out| == DecSize(|src|) && Padded(s[2], s[3]) <= |out| &&
      Decoded(dec, src) == Some(out[..|out| - Padded(s[2], s[3])])
  }

  lemma ProgressStart(dec: char -> int, src: string, s: seq<char>)
    requires s == ['\0', '\0', '\0', '\0']
    ensures Progress(dec, src, 0, [], s)
  {
    assert src[0..] == src;
    AppendedNothing([], Decoded(dec, src));
  }

  lemma ProgressStep(
      dec: char -> int, src: string, rd: nat, out: seq<Byte>, s: seq<char>, rd': nat, bytes: seq<Byte>, s': seq<char>)
    requires rd < |src| && Progress(dec, src, rd, out, s) && GroupAccepted(dec, src[rd..])
    requires rd' == if rd + 4 <= |src| then rd + 4 else |src|
    requires |s'| == 4 && forall k :: 0 <= k < 4 ==> s'[k] == CharAt(src[rd..], k)
    requires GroupAccepted(dec, s') && bytes == BytesOf(dec, s'[0], s'[1], s'[2], s'[3])
    ensures Progress(dec, src, rd', out + bytes, s')
  {
    var rest := src[rd..];
    DecodedStep(dec, rest);
    GroupsFit(|src|, rd, |out|);
    if rd' < |src| {
      assert rest[4..] == src[rd'..];
      AppendedTwice(out, bytes, Decoded(dec, src[rd'..]));
    } else {
      CutPadding(out + bytes, out, bytes, Padded(s'[2], s'[3]));
    }
  }

  lemma DecodedFails(dec: char -> int, src: string, rd: nat, out: seq<Byte>, s: seq<char>)
    requires rd < |src| && Progress(dec, src, rd, out, s) && !GroupAccepted(dec, src[rd..])
    ensures Decoded(dec, src).None?
  {
  }

  lemma CutPadding(all: seq<Byte>, done: seq<Byte>, bytes: seq<Byte>, k: nat)
    requires all == done + bytes && k <= |bytes|
    ensures all[..|all| - k] == done + bytes[..|bytes| - k]
  {
  }

  /** There is room for another group, and just enough for the last. */
  lemma GroupsFit(n: nat, rd: nat, wr: nat)
    requires rd < n && 4 * wr == 3 * rd
    ensures wr + 3 <= DecSize(n) && (n <= rd + 4 ==> wr + 3 == DecSize(n))
  {
    var k := wr / 3;
    assert wr == 3 * k && rd == 4 * k;
  }

  lemma AppendedNothing(a: seq<Byte>, rest: Option<seq<Byte>>)
    requires a == []
    ensures Appended(a, rest) == rest
  {
    if rest.Some? {
      assert a + rest.value == rest.value;
    }
  }

  lemma AppendedTwice(a: seq<Byte>, b: seq<Byte>, rest: Option<seq<Byte>>)
    ensures Appended(a, Appended(b, rest)) == Appended(a + b, rest)
  {
    if rest.Some? {
      assert a + (b + rest.value) == (a + b) + rest.value;
    }
  }

  function Appended(bytes: seq<Byte>, rest: Option<seq<Byte>>): Option<seq<Byte>> {
    if rest.None? then None else Some(bytes + rest.value)
  }

  predicate AllAccepted(dec: char -> int, s: string) {
    forall i :: 0 <= i < |s| ==> dec(s[i]) != INVALID
  }

  lemma AllAcceptedSplit(dec: char -> int, s: string)
    requires |s| > 4
    ensures AllAccepted(dec, s) <==> GroupAccepted(dec, s) && AllAccepted(dec, s[4..])
  {
    if AllAccepted(dec, s[4..]) {
      forall i | 4 <= i < |s| ensures dec(s[i]) != INVALID {
        assert s[i] == s[4..][i - 4];
      }
    }
  }

  lemma ShortGroup(dec: char -> int, s: string)
    requires 1 <= |s| <= 4 && dec('\0') == INVALID && dec(PADDING) != INVALID
    ensures GroupAccepted(dec, s) <==> AllAccepted(dec, s) && |s| != 1
  {
    if AllAccepted(dec, s) && |s| > 1 {
      assert forall k :: 0 <= k < |s| ==> CharAt(s, k) == s[k];
    }
    if GroupAccepted(dec, s) {
      forall i | 0 <= i < |s| ensures dec(s[i]) != INVALID {
        assert s[i] == CharAt(s, i);
        assert i == 0 || i == 1 || i == 2 || i == 3;
      }
    }
  }

  lemma {:induction false} AcceptedTextsWith(dec: char -> int, s: string)
    requires dec('\0') == INVALID && dec(PADDING) != INVALID
    ensures Decoded(dec, s).Some? <==> AllAccepted(dec, s) && |s| % 4 != 1
  {
    if |s| > 4 {
      AllAcceptedSplit(dec, s);
      AcceptedTextsWith(dec, s[4..]);
    } else if s != [] {
      ShortGroup(dec, s);
    }
  }

  /** Base64Decode. */
  method Decode(src: string, dst: array<Byte>) returns (size: int)
    modifies dst
    ensures size == -1 <==> dst.Length < DecSize(|src|) || Decoded(DecodeChar, src).None?
    ensures size != -1 ==> 0 <= size <= DecSize(|src|) && Some(dst[..size]) == Decoded(DecodeChar, src)
    ensures forall i :: DecSize(|src|) <= i < dst.Length ==> dst[i] == old(dst[i])
    ensures dst.Length < DecSize(|src|) ==> dst[..] == old(dst[..])
  {
    forall c ensures DecodeChar(c) == INVALID || 0 <= DecodeChar(c) < 64 {
      DecodeCharMeaning(c);
    }
    size := DecodeWith(DecodeChar, src, dst);
  }

  /** The decoder takes a text exactly when its characters are accepted and no lone one is left over. */
  lemma AcceptedTexts(s: string)
    ensures Decoded(DecodeChar, s).Some? <==> (forall i :: 0 <= i < |s| ==> Accepted(s[i])) && |s| % 4 != 1
  {
    DecodeCharMeaning('\0');
    DecodeCharMeaning(PADDING);
    AcceptedTextsWith(DecodeChar, s);
    forall i | 0 <= i < |s| ensures Accepted(s[i]) <==> DecodeChar(s[i]) != INVALID {
      DecodeCharMeaning(s[i]);
    }
  }

  // ----- round trips

  /** The same digit in either alphabet. */
  predicate SameDigit(c: char, e: char) {
    c == e || (e == '+' && c == '-') || (e == '/' && c == '_')
  }

  /** `v` is `e`, some digits in the URL-safe alphabet, and some of the padding at its end left off. */
  predicate IsVariant(v: string, e: string) {
    |v| <= |e| &&
    (forall i :: 0 <= i < |v| ==> SameDigit(v[i], e[i])) &&
    forall i :: |v| <= i < |e| ==> e[i] == PADDING
  }

  /** The decoder reads every variant of a digit's character as that digit, and padding as zero. */
  ghost predicate IsCode(table: string, dec: char -> int) {
    |table| == 64 && dec(PADDING) == 0 &&
    forall c, v :: 0 <= v < 64 && SameDigit(c, table[v]) ==> dec(c) == v && c != PADDING
  }

  /** `e` begins with the characters of these digits, the last ones replaced by padding. */
  predicate Spells(table: string, d: seq<int>, bytes: nat, e: string) {
    |table| == 64 && |d| == 4 && (forall i :: 0 <= i < 4 ==> 0 <= d[i] < 64) && |e| >= 4 &&
    e[0] == table[d[0]] && e[1] == table[d[1]] &&
    (if bytes > 1 then e[2] == table[d[2]] else e[2] == PADDING && d[2] == 0) &&
    if bytes > 2 then e[3] == table[d[3]] else e[3] == PADDING && d[3] == 0
  }

  /** The characters of a variant stand for the same digits. */
  lemma DigitsComeBack(table: string, dec: char -> int, d: seq<int>, bytes: nat, e: string, v: string)
    requires IsCode(table, dec) && Spells(table, d, bytes, e) && IsVariant(v, e)
    ensures |v| >= 2 && GroupAccepted(dec, v)
    ensures dec(CharAt(v, 0)) == d[0] && dec(CharAt(v, 1)) == d[1]
    ensures dec(CharAt(v, 2)) == d[2] && dec(CharAt(v, 3)) == d[3]
    ensures (CharAt(v, 2) == PADDING <==> bytes <= 1) && (CharAt(v, 3) == PADDING <==> bytes <= 2)
  {
    DigitComesBack(table, dec, v, e, 0, d[0]);
    DigitComesBack(table, dec, v, e, 1, d[1]);
    if bytes > 1 {
      DigitComesBack(table, dec, v, e, 2, d[2]);
    } else {
      PaddingComesBack(v, e, 2);
    }
    if bytes > 2 {
      DigitComesBack(table, dec, v, e, 3, d[3]);
    } else {
      PaddingComesBack(v, e, 3);
    }
  }

  lemma EncodedSpells(table: string, x: seq<Byte>)
    requires |table| == 64 && x != []
    ensures Spells(table, GroupDigits(x), |x|, Encoded(table, x))
  {
    GroupSpells(table, x);
    SpellsMore(table, GroupDigits(x), |x|, Group(table, x), Encoded(table, Rest(x, 3)));
  }

  lemma GroupSpells(table: string, x: seq<Byte>)
    requires |table| == 64 && x != []
    ensures Spells(table, GroupDigits(x), |x|, Group(table, x))
  {
  }

  lemma SpellsMore(table: string, d: seq<int>, bytes: nat, e: string, more: string)
    requires Spells(table, d, bytes, e)
    ensures Spells(table, d, bytes, e + more)
  {
  }

  lemma DigitComesBack(table: string, dec: char -> int, v: string, e: string, k: nat, d: int)
    requires IsCode(table, dec) && IsVariant(v, e) && k < |e| && 0 <= d < 64 && e[k] == table[d]
    ensures k < |v| && CharAt(v, k) == v[k] && dec(v[k]) != INVALID && dec(v[k]) == d && v[k] != PADDING
  {
    assert SameDigit(table[d], table[d]);
    assert e[k] != PADDING;
    assert SameDigit(v[k], table[d]);
  }

  lemma PaddingComesBack(v: string, e: string, k: nat)
    requires IsVariant(v, e) && 2 <= k < |e| && e[k] == PADDING
    ensures CharAt(v, k) == PADDING
  {
  }

  /** The bytes of the group come back, with zeros for missing ones. */
  lemma GroupComesBack(x: seq<Byte>)
    requires x != []
    ensures var d := GroupDigits(x);
            GroupBytes(d[0], d[1], d[2], d[3]) ==
            [x[0], if |x| > 1 then x[1] else 0, if |x| > 2 then x[2] else 0]
  {
    var d := GroupDigits(x);
    GroupBytesSpell(d[0], d[1], d[2], d[3]);
    GroupDigitsSpell(x);
    BytesUnique(GroupBytes(d[0], d[1], d[2], d[3]), [x[0], if |x| > 1 then x[1] else 0, if |x| > 2 then x[2] else 0]);
  }

  /** What follows a full group is a variant of what followed it. */
  lemma VariantRest(table: string, dec: char -> int, x: seq<Byte>, v: string)
    requires IsCode(table, dec) && |x| >= 3 && IsVariant(v, Encoded(table, x)) && CharAt(v, 3) != PADDING
    ensures |v| >= 4 && IsVariant(v[4..], Encoded(table, Rest(x, 3)))
    ensures Rest(x, 3) != [] ==> |v| > 4
  {
    var e := Encoded(table, x);
    assert e[4..] == Encoded(table, Rest(x, 3));
    if Rest(x, 3) != [] {
      var c := table[GroupDigits(Rest(x, 3))[0]];
      assert SameDigit(c, c);
      assert e[4] == Encoded(table, Rest(x, 3))[0] != PADDING;
    }
  }

  /** The first step of decoding a variant. */
  lemma DecodedVariant(table: string, dec: char -> int, x: seq<Byte>, v: string)
    requires IsCode(table, dec) && x != [] && IsVariant(v, Encoded(table, x))
    ensures v != [] && GroupAccepted(dec, v)
    ensures var pads := if |x| == 1 then 2 else if |x| == 2 then 1 else 0;
            Padded(CharAt(v, 2), CharAt(v, 3)) == pads &&
            BytesOf(dec, CharAt(v, 0), CharAt(v, 1), CharAt(v, 2), CharAt(v, 3))[..3 - pads] ==
            if |x| > 3 then x[..3] else x
  {
    EncodedSpells(table, x);
    DigitsComeBack(table, dec, GroupDigits(x), |x|, Encoded(table, x), v);
    GroupComesBack(x);
  }

  lemma LastGroupDecodes(table: string, dec: char -> int, x: seq<Byte>, v: string)
    requires IsCode(table, dec) && 1 <= |x| <= 3 && IsVariant(v, Encoded(table, x))
    ensures Decoded(dec, v) == Some(x)
  {
    DecodedVariant(table, dec, x, v);
    EncodedSize(table, x);
    assert |v| <= 4;
  }

  lemma {:induction false} DecodeUndoesEncodeWith(table: string, dec: char -> int, x: seq<Byte>, v: string)
    requires IsCode(table, dec) && IsVariant(v, Encoded(table, x))
    ensures Decoded(dec, v) == Some(x)
    decreases |x|
  {
    if x == [] {
      assert v == [];
    } else if |x| <= 3 {
      LastGroupDecodes(table, dec, x, v);
    } else {
      DecodedVariant(table, dec, x, v);
      VariantRest(table, dec, x, v);
      DecodeUndoesEncodeWith(table, dec, Rest(x, 3), v[4..]);
      DecodedStep(dec, v);
      var bytes := BytesOf(dec, CharAt(v, 0), CharAt(v, 1), CharAt(v, 2), CharAt(v, 3));
      assert bytes == bytes[..3];
      assert x == x[..3] + x[3..];
    }
  }

  lemma TableIsCode()
    ensures IsCode(ENC_TABLE, DecodeChar)
  {
    TableIsAlphabet();
    DecodeCharMeaning(PADDING);
    forall c, v | 0 <= v < 64 && SameDigit(c, ENC_TABLE[v]) ensures DecodeChar(c) == v && c != PADDING {
      assert Stands(ENC_TABLE[v], v);
      DecodeCharMeaning(c);
    }
  }

  /** Decoding undoes encoding, in either alphabet, with or without the padding. */
  lemma DecodeUndoesEncode(x: seq<Byte>, v: string)
    requires IsVariant(v, Encoded(ENC_TABLE, x))
    ensures Decoded(DecodeChar, v) == Some(x)
  {
    TableIsCode();
    DecodeUndoesEncodeWith(ENC_TABLE, DecodeChar, x, v);
  }
}
