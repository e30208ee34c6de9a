/**
  UTF-8 (RFC 3629), as `str::as_bytes` writes it and `read_to_string` checks it. A `char` is a
  Unicode scalar value on both sides.
 */
module Utf8 {
  import opened Common

  // ------------------------------------------------------------------
  // Encoder
  // ------------------------------------------------------------------

  /** A byte `10xxxxxx`, which only ever continues a character. */
  predicate IsContinuation(b: Byte) {
    0x80 <= b < 0xC0
  }

  function Continuation(bits: nat): Byte
    requires bits < 0x40
  {
    0x80 + bits
  }

  function EncodeChar(c: char): (bytes: Bytes)
    ensures 1 <= |bytes| <= 4 && !IsContinuation(bytes[0])
    ensures forall k :: 1 <= k < |bytes| ==> IsContinuation(bytes[k])
  {
    var v := c as nat;
    var high := v / 0x40;
    var higher := high / 0x40;
    if v < 0x80 then [v]
    else if v < 0x800 then [0xC0 + high, Continuation(v % 0x40)]
    else if v < 0x1_0000 then [0xE0 + higher, Continuation(high % 0x40), Continuation(v % 0x40)]
    else [0xF0 + higher / 0x40, Continuation(higher % 0x40), Continuation(high % 0x40), Continuation(v % 0x40)]
  }

  function Encode(s: string): Bytes {
    if s == "" then [] else EncodeChar(s[0]) + Encode(s[1..])
  }

  // ------------------------------------------------------------------
  // Decoder
  // ------------------------------------------------------------------

  /** The number of bytes a lead byte announces, or zero if no character starts with it. */
  function Width(lead: Byte): nat {
    if lead < 0x80 then 1
    else if lead < 0xC0 then 0
    else if lead < 0xE0 then 2
    else if lead < 0xF0 then 3
    else if lead < 0xF8 then 4
    else 0
  }

  /** The bits a continuation byte adds below those read so far. */
  function Shift(bits: int, b: Byte): int {
    bits * 0x40 + (b as int - 0x80)
  }

  /** The bits a character's bytes carry. */
  function Value(bytes: Bytes): int
    requires bytes != [] && |bytes| == Width(bytes[0])
  {
    var lead := bytes[0] as int;
    match |bytes|
    case 1 => lead
    case 2 => Shift(lead - 0xC0, bytes[1])
    case 3 => Shift(Shift(lead - 0xE0, bytes[1]), bytes[2])
    case _ => Shift(Shift(Shift(lead - 0xF0, bytes[1]), bytes[2]), bytes[3])
  }

  /** The values a character of this width may have: no overlong form, no surrogate, nothing past U+10FFFF. */
  predicate InRange(width: nat, v: int) {
    match width
    case 1 => 0 <= v < 0x80
    case 2 => 0x80 <= v < 0x800
    case 3 => 0x800 <= v < 0xD800 || 0xE000 <= v < 0x1_0000
    case 4 => 0x1_0000 <= v < 0x11_0000
    case _ => false
  }

  /** One character, from exactly its bytes. */
  function DecodeChar(bytes: Bytes): Option<char> {
    if bytes != [] && |bytes| == Width(bytes[0])
       && (forall k :: 1 <= k < |bytes| ==> IsContinuation(bytes[k]))
       && InRange(|bytes|, Value(bytes))
    then Some(Value(bytes) as char) else None
  }

  /** The bytes of the first character. */
  function First(bytes: Bytes): (n: nat)
    requires bytes != []
    ensures n <= |bytes|
  {
    if Width(bytes[0]) <= |bytes| then Width(bytes[0]) else 0
  }

  function Prepend(c: char, rest: Option<string>): Option<string> {
    match rest
    case Some(s) => Some([c] + s)
    case None => None
  }

  /** Fails on anything that is not UTF-8, as `read_to_string` does. */
  function Decode(bytes: Bytes): Option<string>
    decreases |bytes|
  {
    if bytes == [] then Some("")
    else
      var n := First(bytes);
      if n == 0 then None
      else
        match DecodeChar(bytes[..n])
        case Some(c) => Prepend(c, Decode(bytes[n..]))
        case None => None
  }

  // ------------------------------------------------------------------
  // Characters
  // ------------------------------------------------------------------

  lemma EncodedChar(c: char)
    ensures |EncodeChar(c)| == Width(EncodeChar(c)[0]) && DecodeChar(EncodeChar(c)) == Some(c)
  {
  }

  lemma ShiftInverts(bits: int, b: Byte)
    requires IsContinuation(b)
    ensures Shift(bits, b) / 0x40 == bits && Shift(bits, b) % 0x40 == b - 0x80
  {
  }

  /** Only the bytes the encoder writes are accepted. */
  lemma DecodedChar(bytes: Bytes)
    requires DecodeChar(bytes).Some?
    ensures EncodeChar(DecodeChar(bytes).value) == bytes
  {
    var lead := bytes[0] as int;
    if |bytes| == 2 {
      ShiftInverts(lead - 0xC0, bytes[1]);
    } else if |bytes| == 3 {
      ShiftInverts(lead - 0xE0, bytes[1]);
      ShiftInverts(Shift(lead - 0xE0, bytes[1]), bytes[2]);
    } else if |bytes| == 4 {
      ShiftInverts(lead - 0xF0, bytes[1]);
      ShiftInverts(Shift(lead - 0xF0, bytes[1]), bytes[2]);
      ShiftInverts(Shift(Shift(lead - 0xF0, bytes[1]), bytes[2]), bytes[3]);
    }
  }

  // ------------------------------------------------------------------
  // Texts
  // ------------------------------------------------------------------

  function Joined(a: Option<string>, b: Option<string>): Option<string> {
    if a.Some? && b.Some? then Some(a.value + b.value) else None
  }

  lemma EncodeCons(c: char, s: string)
    ensures Encode([c] + s) == EncodeChar(c) + Encode(s)
  {
    assert ([c] + s)[1..] == s;
  }

  /** A character's bytes in front decode to that character. */
  lemma DecodeCons(c: char, rest: Bytes)
    ensures Decode(EncodeChar(c) + rest) == Prepend(c, Decode(rest))
  {
    var head := EncodeChar(c);
    var bytes := head + rest;
    EncodedChar(c);
    assert bytes[..|head|] == head && bytes[|head|..] == rest;
  }

  /** Decoding goes on independently after a whole text. */
  lemma {:induction false} DecodeAfter(s: string, rest: Bytes)
    ensures Decode(Encode(s) + rest) == Joined(Some(s), Decode(rest))
    decreases |s|
  {
    if s == "" {
      assert Encode(s) + rest == rest;
      assert Decode(rest).Some? ==> "" + Decode(rest).value == Decode(rest).value;
    } else {
      var tail := Encode(s[1..]) + rest;
      assert Encode(s) + rest == EncodeChar(s[0]) + tail;
      DecodeCons(s[0], tail);
      DecodeAfter(s[1..], rest);
      assert Decode(rest).Some? ==> [s[0]] + (s[1..] + Decode(rest).value) == s + Decode(rest).value;
    }
  }

  /** What was encoded decodes to itself. */
  lemma RoundTrip(s: string)
    ensures Decode(Encode(s)) == Some(s)
  {
    DecodeAfter(s, []);
    assert Encode(s) + [] == Encode(s) && s + "" == s;
  }

  /** What decodes starts with an encoded character, and the rest decodes too. */
  lemma DecodeFirst(bytes: Bytes) returns (c: char, rest: Bytes)
    requires bytes != [] && Decode(bytes).Some?
    ensures bytes == EncodeChar(c) + rest && Decode(bytes) == Prepend(c, Decode(rest))
    ensures |rest| < |bytes|
  {
    var n := First(bytes);
    c, rest := DecodeChar(bytes[..n]).value, bytes[n..];
    DecodedChar(bytes[..n]);
  }

  /** Whatever decodes is the encoding of its text, so no two byte strings read the same. */
  lemma {:induction false} DecodeExact(bytes: Bytes)
    requires Decode(bytes).Some?
    ensures Encode(Decode(bytes).value) == bytes
    decreases |bytes|
  {
    if bytes != [] {
      var c, rest := DecodeFirst(bytes);
      DecodeExact(rest);
      EncodeCons(c, Decode(rest).value);
    }
  }

  lemma {:induction false} EncodeConcat(a: string, b: string)
    ensures Encode(a + b) == Encode(a) + Encode(b)
    decreases |a|
  {
    if a == "" {
      assert a + b == b;
    } else {
      assert (a + b)[1..] == a[1..] + b;
      EncodeConcat(a[1..], b);
    }
  }

  /** Bytes that do not start inside a character. */
  predicate StartsFresh(bytes: Bytes) {
    bytes != [] ==> !IsContinuation(bytes[0])
  }

  lemma EncodingStartsFresh(s: string)
    ensures StartsFresh(Encode(s)) && forall n :: 0 <= n <= |Encode(s)| ==> StartsFresh(Encode(s)[..n])
  {
  }

  /** Bytes that start a character of their own do not complete one torn before them. */
  lemma TornStaysTorn(bytes: Bytes, rest: Bytes)
    requires bytes != [] && StartsFresh(rest)
    requires First(bytes) == 0 || DecodeChar(bytes[..First(bytes)]).None?
    ensures Decode(bytes + rest) == None
  {
    var whole := bytes + rest;
    var n := First(whole);
    if n > 0 {
      if n <= |bytes| {
        assert whole[..n] == bytes[..n];
      } else {
        assert !IsContinuation(whole[..n][|bytes|]);
      }
      assert DecodeChar(whole[..n]) == None;
    }
  }

  /** Where a character starts, the two sides read independently, and one that does not read spoils both. */
  lemma {:induction false} DecodeJoin(bytes: Bytes, rest: Bytes)
    requires StartsFresh(rest)
    ensures Decode(bytes + rest) == Joined(Decode(bytes), Decode(rest))
    decreases |bytes|
  {
    if Decode(bytes).Some? {
      DecodeExact(bytes);
      DecodeAfter(Decode(bytes).value, rest);
    } else if First(bytes) == 0 || DecodeChar(bytes[..First(bytes)]).None? {
      TornStaysTorn(bytes, rest);
    } else {
      var n := First(bytes);
      var c := DecodeChar(bytes[..n]).value;
      DecodedChar(bytes[..n]);
      assert bytes + rest == EncodeChar(c) + (bytes[n..] + rest);
      DecodeCons(c, bytes[n..] + rest);
      DecodeJoin(bytes[n..], rest);
    }
  }

  /** Characters of every width, with encodings given in section 7 of RFC 3629. */
  lemma Rfc3629Examples()
    ensures EncodeChar('\U{0041}') == [0x41] && EncodeChar('\U{0391}') == [0xCE, 0x91]
    ensures EncodeChar('\U{2262}') == [0xE2, 0x89, 0xA2] && EncodeChar('\U{D55C}') == [0xED, 0x95, 0x9C]
    ensures EncodeChar('\U{233B4}') == [0xF0, 0xA3, 0x8E, 0xB4]
  {
  }

  // ------------------------------------------------------------------
  // Cuts
  // ------------------------------------------------------------------

  /** `is_char_boundary`: the end, or a byte that starts a character. */
  predicate CharBoundary(bytes: Bytes, cut: nat)
    requires cut <= |bytes|
  {
    cut == |bytes| || !IsContinuation(bytes[cut])
  }

  /** Part of a character does not decode. */
  lemma TornChar(c: char, cut: nat)
    requires 0 < cut < |EncodeChar(c)|
    ensures Decode(EncodeChar(c)[..cut]) == None
  {
    EncodedChar(c);
  }

  /** The characters whole in the first `cut` bytes. */
  ghost predicate HoldsWhole(s: string, cut: nat, n: nat) {
    n <= |s| && |Encode(s[..n])| <= cut && (n < |s| ==> cut < |Encode(s[..n + 1])|)
  }

  lemma WholeCharacters(s: string, cut: nat) returns (n: nat)
    ensures HoldsWhole(s, cut, n)
  {
    n := |s|;
    while cut < |Encode(s[..n])|
      invariant n <= |s| && (n < |s| ==> cut < |Encode(s[..n + 1])|)
      decreases n
    {
      n := n - 1;
    }
  }

  /** A text's bytes around its character `n`. */
  lemma EncodeAround(s: string, n: nat)
    requires n < |s|
    ensures Encode(s) == Encode(s[..n]) + (EncodeChar(s[n]) + Encode(s[n + 1..]))
    ensures |Encode(s[..n + 1])| == |Encode(s[..n])| + |EncodeChar(s[n])|
  {
    assert s == s[..n] + s[n..] && s[n..] == [s[n]] + s[n + 1..] && s[..n + 1] == s[..n] + [s[n]];
    EncodeConcat(s[..n], s[n..]);
    EncodeCons(s[n], s[n + 1..]);
    EncodeConcat(s[..n], [s[n]]);
    EncodeCons(s[n], "");
  }

  lemma CutPieces<T>(a: seq<T>, b: seq<T>, c: seq<T>, cut: nat)
    requires |a| <= cut < |a| + |b|
    ensures (a + (b + c))[..cut] == a + b[..cut - |a|] && (a + (b + c))[cut] == b[cut - |a|]
  {
  }

  /** Bytes that stop short of the end read as text exactly if no part of a character is left over. */
  lemma CutReads(s: string, cut: nat, n: nat)
    requires HoldsWhole(s, cut, n) && n < |s|
    ensures cut < |Encode(s)| && (CharBoundary(Encode(s), cut) <==> |Encode(s[..n])| == cut)
    ensures Decode(Encode(s)[..cut]) == if CharBoundary(Encode(s), cut) then Some(s[..n]) else None
  {
    var c, left := s[n], cut - |Encode(s[..n])|;
    EncodeAround(s, n);
    CutPieces(Encode(s[..n]), EncodeChar(c), Encode(s[n + 1..]), cut);
    DecodeAfter(s[..n], EncodeChar(c)[..left]);
    if left == 0 {
      assert s[..n] + "" == s[..n];
    } else {
      TornChar(c, left);
    }
  }

  /**
    A prefix of a text's bytes reads as text exactly if it ends at a character boundary, and
    then as the characters that are in it whole.
   */
  lemma DecodeCut(s: string, cut: nat) returns (n: nat)
    requires cut <= |Encode(s)|
    ensures HoldsWhole(s, cut, n)
    ensures Decode(Encode(s)[..cut]) == if CharBoundary(Encode(s), cut) then Some(s[..n]) else None
  {
    n := WholeCharacters(s, cut);
    if n < |s| {
      CutReads(s, cut, n);
    } else {
      assert s[..n] == s && Encode(s)[..cut] == Encode(s);
      RoundTrip(s);
    }
  }
}
