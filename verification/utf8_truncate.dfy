/** `truncate_utf8`, over the encoding of sections 3 and 4 of RFC 3629. */
module Utf8Truncate {
  import opened Options

  /** A Unicode scalar value; strings with lone surrogates cannot be encoded. */
  type CodePoint = n: int | 0 <= n < 0xD800 || 0xE000 <= n <= 0x10FFFF

  type Byte = n: int | 0 <= n < 256

  // ----- encoding ---------------------------------------------------------------------------

  /** A number as base-64 digits: the last one, and the rest. */
  function Digit(n: nat): (d: nat)
    ensures d < 64
  {
    n % 64
  }

  function Rest(n: nat): (r: nat)
    ensures n == 64 * r + Digit(n)
  {
    n / 64
  }

  lemma DigitsUnique(n: nat, r: nat, d: nat)
    requires n == 64 * r + d && d < 64
    ensures Rest(n) == r && Digit(n) == d
  {
  }

  function Tail(n: nat): Byte {
    0x80 + Digit(n)
  }

  function EncodeOne(c: CodePoint): (bs: seq<Byte>)
    ensures 1 <= |bs| <= 4
  {
    if c < 0x80 then [c]
    else if c < 0x800 then [0xC0 + Rest(c), Tail(c)]
    else if c < 0x10000 then [0xE0 + Rest(Rest(c)), Tail(Rest(c)), Tail(c)]
    else [0xF0 + Rest(Rest(Rest(c))), Tail(Rest(Rest(c))), Tail(Rest(c)), Tail(c)]
  }

  function Encode(s: seq<CodePoint>): seq<Byte> {
    if s == [] then [] else EncodeOne(s[0]) + Encode(s[1..])
  }

  /** Section 3 of RFC 3629: how many bytes a code point takes, which bytes lead and which follow,
      and that their free bits make up its number. */
  lemma EncodedByTable(c: CodePoint)
    ensures var bs := EncodeOne(c);
              && (forall i | 1 <= i < |bs| :: 0x80 <= bs[i] < 0xC0)
              && (if c <= 0x7F then |bs| == 1 && bs[0] == c
                  else if c <= 0x7FF then |bs| == 2 && 0xC0 <= bs[0] < 0xE0 && 64 * (bs[0] as int - 0xC0) + (bs[1] as int - 0x80) == c
                  else if c <= 0xFFFF then
                    |bs| == 3 && 0xE0 <= bs[0] < 0xF0 && 64 * (64 * (bs[0] as int - 0xE0) + (bs[1] as int - 0x80)) + (bs[2] as int - 0x80) == c
                  else
                    |bs| == 4 && 0xF0 <= bs[0] < 0xF8 &&
                    64 * (64 * (64 * (bs[0] as int - 0xF0) + (bs[1] as int - 0x80)) + (bs[2] as int - 0x80)) + (bs[3] as int - 0x80) == c)
  {
    hide Digit, Rest;
  }

  /** And a text's encoding is that of its code points one after the other. */
  lemma {:induction false} EncodedInOrder(s: seq<CodePoint>, j: nat)
    requires j < |s|
    ensures var a := |Encode(s[..j])|;
              a + |EncodeOne(s[j])| <= |Encode(s)| && Encode(s)[a..a + |EncodeOne(s[j])|] == EncodeOne(s[j])
    ensures j == |s| - 1 ==> |Encode(s)| == |Encode(s[..j])| + |EncodeOne(s[j])|
  {
    hide EncodeOne;
    if j > 0 {
      EncodedInOrder(s[1..], j - 1);
      assert s[..j][1..] == s[1..][..j - 1];
    }
  }

  // ----- strict decoding -----------------------------------------------------------------------

  predicate IsTail(b: Byte) { 0x80 <= b < 0xC0 }

  datatype Head = Head(c: CodePoint, size: nat)

  function Bits(b: Byte): nat
    requires IsTail(b)
  {
    b - 0x80
  }

  /** The code point at the start of `bs`: no overlong form, no surrogate, nothing cut short. */
  function DecodeOne(bs: seq<Byte>): Option<Head>
    requires bs != []
  {
    var b := bs[0];
    if b < 0x80 then Some(Head(b, 1))
    else if 0xC2 <= b < 0xE0 && |bs| >= 2 && IsTail(bs[1]) then
      Some(Head(64 * (b - 0xC0) + Bits(bs[1]), 2))
    else if 0xE0 <= b < 0xF0 && |bs| >= 3 && IsTail(bs[1]) && IsTail(bs[2]) then
      var c := 64 * (64 * (b - 0xE0) + Bits(bs[1])) + Bits(bs[2]);
      if 0x800 <= c < 0xD800 || 0xE000 <= c then Some(Head(c, 3)) else None
    else if 0xF0 <= b < 0xF5 && |bs| >= 4 && IsTail(bs[1]) && IsTail(bs[2]) && IsTail(bs[3]) then
      var c := 64 * (64 * (64 * (b - 0xF0) + Bits(bs[1])) + Bits(bs[2])) + Bits(bs[3]);
      if 0x10000 <= c <= 0x10FFFF then Some(Head(c, 4)) else None
    else None
  }

  lemma DecodeOneSize(bs: seq<Byte>)
    requires bs != [] && DecodeOne(bs).Some?
    ensures 1 <= DecodeOne(bs).value.size <= |bs|
  {
  }

  function Decode(bs: seq<Byte>): Option<seq<CodePoint>>
    decreases |bs|
  {
    if bs == [] then Some([])
    else if DecodeOne(bs).None? then None
    else
      var h := DecodeOne(bs).value;
      DecodeOneSize(bs);
      var rest := Decode(bs[h.size..]);
      if rest.None? then None else Some([h.c] + rest.value)
  }

  // ----- the two undo each other -------------------------------------------------------------------

  lemma DecodeOneOfEncoded(c: CodePoint, rest: seq<Byte>)
    ensures DecodeOne(EncodeOne(c) + rest) == Some(Head(c, |EncodeOne(c)|))
  {
    hide Digit, Rest;
    var e := EncodeOne(c);
    assert forall i | 0 <= i < |e| :: (e + rest)[i] == e[i];
  }

  lemma EncodeOfDecodedOne(bs: seq<Byte>)
    requires bs != [] && DecodeOne(bs).Some?
    ensures EncodeOne(DecodeOne(bs).value.c) == bs[..DecodeOne(bs).value.size]
  {
    hide Digit, Rest;
    var h, b := DecodeOne(bs).value, bs[0];
    if h.size == 2 {
      DigitsUnique(h.c, b - 0xC0, Bits(bs[1]));
    } else if h.size == 3 {
      var r := 64 * (b - 0xE0) + Bits(bs[1]);
      DigitsUnique(h.c, r, Bits(bs[2]));
      DigitsUnique(r, b - 0xE0, Bits(bs[1]));
    } else if h.size == 4 {
      var q := 64 * (b - 0xF0) + Bits(bs[1]);
      var r := 64 * q + Bits(bs[2]);
      DigitsUnique(h.c, r, Bits(bs[3]));
      DigitsUnique(r, q, Bits(bs[2]));
      DigitsUnique(q, b - 0xF0, Bits(bs[1]));
    }
  }

  lemma {:induction false} DecodeEncode(s: seq<CodePoint>)
    ensures Decode(Encode(s)) == Some(s)
  {
    hide EncodeOne, DecodeOne;
    if s != [] {
      DecodeOneOfEncoded(s[0], Encode(s[1..]));
      DecodeEncode(s[1..]);
      assert s == [s[0]] + s[1..];
    }
  }

  lemma {:induction false} EncodeDecode(bs: seq<Byte>)
    requires Decode(bs).Some?
    ensures Encode(Decode(bs).value) == bs
    decreases |bs|
  {
    hide EncodeOne, DecodeOne;
    if bs != [] {
      var h := DecodeOne(bs).value;
      DecodeOneSize(bs);
      EncodeOfDecodedOne(bs);
      EncodeDecode(bs[h.size..]);
      assert bs == bs[..h.size] + bs[h.size..];
    }
  }

  // ----- prefixes ------------------------------------------------------------------------------------

  lemma {:induction false} EncodePrefix(s: seq<CodePoint>, j: nat)
    requires j <= |s|
    ensures Encode(s[..j]) <= Encode(s)
  {
    hide EncodeOne;
    if j > 0 {
      EncodePrefix(s[1..], j - 1);
      assert s[..j][1..] == s[1..][..j - 1];
    }
  }

  lemma {:induction false} EncodeNext(s: seq<CodePoint>, j: nat)
    requires j < |s|
    ensures |Encode(s[..j + 1])| == |Encode(s[..j])| + |EncodeOne(s[j])|
  {
    hide EncodeOne;
    if j > 0 {
      EncodeNext(s[1..], j - 1);
      assert s[..j][1..] == s[1..][..j - 1];
      assert s[..j + 1][1..] == s[1..][..j];
    } else {
      assert s[..1] == [s[0]];
      assert Encode(s[..1]) == EncodeOne(s[0]) + Encode([]);
    }
  }

  lemma {:induction false} EncodedPrefixIsPrefix(t: seq<CodePoint>, s: seq<CodePoint>)
    requires Encode(t) <= Encode(s)
    ensures t <= s
  {
    hide EncodeOne, DecodeOne;
    if t != [] {
      assert Encode(t) == EncodeOne(t[0]) + Encode(t[1..]);
      assert s != [];
      var k := |EncodeOne(t[0])|;
      DecodeOneOfEncoded(t[0], Encode(t[1..]));
      DecodeOneOfEncoded(s[0], Encode(s[1..]));
      DecodeOnePrefix(Encode(t), Encode(s));
      assert Encode(t)[k..] == Encode(t[1..]) && Encode(s)[k..] == Encode(s[1..]);
      assert Encode(t)[k..] <= Encode(s)[k..];
      EncodedPrefixIsPrefix(t[1..], s[1..]);
      assert t == [t[0]] + t[1..] && s == [s[0]] + s[1..];
    }
  }

  lemma DecodeOnePrefix(a: seq<Byte>, b: seq<Byte>)
    requires a != [] && a <= b && DecodeOne(a).Some?
    ensures DecodeOne(b) == DecodeOne(a)
  {
  }

  /** A prefix of an encoding decodes exactly when it ends between two code points, and then to
      the code points before the cut. */
  lemma PrefixDecodes(s: seq<CodePoint>, k: nat)
    requires k <= |Encode(s)|
    ensures Decode(Encode(s)[..k]).Some? <==> exists j | 0 <= j <= |s| :: |Encode(s[..j])| == k
    ensures Decode(Encode(s)[..k]).Some? ==>
              var t := Decode(Encode(s)[..k]).value;
              t <= s && |Encode(t)| == k
  {
    hide EncodeOne, DecodeOne, Encode, Decode;
    var e := Encode(s)[..k];
    if Decode(e).Some? {
      var t := Decode(e).value;
      EncodeDecode(e);
      EncodedPrefixIsPrefix(t, s);
      assert s[..|t|] == t;
    }
    if j :| 0 <= j <= |s| && |Encode(s[..j])| == k {
      EncodePrefix(s, j);
      assert e == Encode(s[..j]);
      DecodeEncode(s[..j]);
    }
  }

  // ----- truncation ---------------------------------------------------------------------------------------

  const DOTS: seq<CodePoint> := [0x2E, 0x2E, 0x2E]

  /** Where `bytes[:n]` ends; a negative `n` counts from the end. */
  function SliceEnd(size: nat, n: int): nat {
    if n >= size then size else if n >= 0 then n else if size + n >= 0 then size + n else 0
  }

  /** `text[..j]` is the longest prefix of whole code points that encodes into `n` bytes. */
  predicate LongestWithin(text: seq<CodePoint>, n: nat, j: nat) {
    j <= |text| && |Encode(text[..j])| <= n && (j < |text| ==> |Encode(text[..j + 1])| > n)
  }

  /** `r` is a text that does not fit into the limit, cut to three bytes less; the retry loop dropped `dropped` bytes. */
  ghost predicate IsCut(text: seq<CodePoint>, maxBytes: int, r: seq<CodePoint>, dropped: nat) {
    var size := |Encode(text)|;
    var n := if maxBytes >= 3 then maxBytes - 3 else if size + maxBytes >= 3 then size + maxBytes - 3 else 0;
    size > maxBytes && exists j: nat :: LongestWithin(text, n, j) && r == text[..j] + DOTS && dropped == n - |Encode(text[..j])| <= 3
  }

  /** Also returns how many bytes the retry loop dropped. */
  method TruncateUtf8(text: seq<CodePoint>, maxBytes: int) returns (r: seq<CodePoint>, dropped: nat)
    ensures |Encode(text)| <= maxBytes ==> r == text && dropped == 0
    ensures |Encode(text)| > maxBytes ==> IsCut(text, maxBytes, r, dropped)
    ensures |Encode(r)| <= maxBytes <==> |Encode(text)| <= maxBytes || maxBytes >= 3
  {
    hide Encode, Decode;
    var encoded := Encode(text);
    dropped := 0;
    if |encoded| <= maxBytes {
      return text, 0;
    }
    ghost var n := SliceEnd(|encoded|, maxBytes - 3);
    var clipped := encoded[..SliceEnd(|encoded|, maxBytes - 3)];
    while true
      invariant |clipped| <= n && clipped == encoded[..|clipped|] && dropped == n - |clipped|
      invariant forall k | |clipped| < k <= n :: Decode(encoded[..k]).None?
      decreases |clipped|
    {
      var decoded := Decode(clipped);
      PrefixDecodes(text, |clipped|);
      if decoded.Some? {
        LongestFound(text, n, |clipped|, decoded.value);
        TruncatedSize(text, maxBytes, |decoded.value|);
        return decoded.value + DOTS, dropped;
      }
      NothingDecodes();
      clipped := clipped[..|clipped| - 1];
      dropped := dropped + 1;
    }
  }

  lemma NothingDecodes()
    ensures Decode([]).Some?
  {
  }

  lemma CutAfterIsDecoded(s: seq<CodePoint>, j: nat)
    requires j <= |s| && |Encode(s[..j])| <= |Encode(s)|
    ensures Decode(Encode(s)[..|Encode(s[..j])|]).Some?
  {
    hide Encode, Decode;
    PrefixDecodes(s, |Encode(s[..j])|);
  }

  lemma LongestFound(text: seq<CodePoint>, n: nat, m: nat, t: seq<CodePoint>)
    requires m <= n <= |Encode(text)| && t <= text && |Encode(t)| == m
    requires forall k | m < k <= n :: Decode(Encode(text)[..k]).None?
    ensures LongestWithin(text, n, |t|) && t == text[..|t|]
    ensures n < |Encode(text)| || t == text
    ensures n - m <= 3
  {
    hide Encode, Decode, EncodeOne;
    var j := |t|;
    assert text[..j] == t;
    if j < |text| {
      EncodeNext(text, j);
      EncodePrefix(text, j + 1);
      CutAfterIsDecoded(text, j + 1);
    } else {
      assert t == text;
    }
  }

  lemma {:induction false} EncodeConcat(s: seq<CodePoint>, t: seq<CodePoint>)
    ensures Encode(s + t) == Encode(s) + Encode(t)
  {
    hide EncodeOne;
    if s == [] {
      assert s + t == t;
    } else {
      EncodeConcat(s[1..], t);
      assert (s + t)[1..] == s[1..] + t;
    }
  }

  lemma DotsSize()
    ensures |Encode(DOTS)| == 3
  {
    assert DOTS[1..] == [0x2E, 0x2E] && DOTS[1..][1..] == [0x2E] && DOTS[1..][1..][1..] == [];
  }

  /** The limit is kept exactly when the text already fits or there is room for the dots. */
  lemma TruncatedSize(text: seq<CodePoint>, maxBytes: int, j: nat)
    requires |Encode(text)| > maxBytes
    requires LongestWithin(text, SliceEnd(|Encode(text)|, maxBytes - 3), j)
    ensures |Encode(text[..j] + DOTS)| <= maxBytes <==> maxBytes >= 3
  {
    hide Encode;
    EncodeConcat(text[..j], DOTS);
    DotsSize();
  }

  /** Two letters do not fit into one byte, and what takes their place is longer still. */
  lemma CutCanBeTooLong() returns (text: seq<CodePoint>)
    ensures |Encode(text)| == 2
    ensures forall r, dropped :: IsCut(text, 1, r, dropped) ==> r == DOTS && |Encode(r)| == 3
  {
    text := [0x61, 0x61];
    assert text[1..] == [0x61] && text[1..][1..] == [];
    assert |Encode(text)| == 2;
    DotsSize();
    forall j: nat | LongestWithin(text, 0, j) ensures text[..j] == [] {
      assert text[..1][0] == 0x61 && text[..2] == text;
    }
    assert [] + DOTS == DOTS;
  }
}
