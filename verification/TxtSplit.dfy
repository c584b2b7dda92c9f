/** Splitting a TXT value into DNS character-strings, and the wire size of the result. */
module TxtSplit {

  type byte = x: nat | x < 256

  const MAX_CHUNK := 255
  const MAX_TXT_VALUE := 65279
  const MAX_RDATA := 65535

  predicate Continuation(b: byte) {
    0x80 <= b <= 0xBF
  }

  /** utf8.RuneStart */
  predicate RuneStart(b: byte) {
    !Continuation(b)
  }

  /** Where the first chunk of a long value ends. */
  function CutFrom(v: seq<byte>, end: nat): nat
    requires |v| > MAX_CHUNK && end <= MAX_CHUNK
  {
    if end == 0 then MAX_CHUNK
    else if RuneStart(v[end]) then end
    else CutFrom(v, end - 1)
  }

  lemma {:induction false} CutInRange(v: seq<byte>, end: nat)
    requires |v| > MAX_CHUNK && end <= MAX_CHUNK
    ensures 1 <= CutFrom(v, end) <= MAX_CHUNK
  {
    if end > 0 && !RuneStart(v[end]) {
      CutInRange(v, end - 1);
    }
  }

  /** The cut is at the last byte, counted from 1 to the limit, that does not continue a rune, and at the
      limit if all of them do. */
  lemma {:induction false} CutMeaning(v: seq<byte>, end: nat)
    requires |v| > 255 && end <= 255
    ensures var cut := CutFrom(v, end);
            || (1 <= cut <= end && !(0x80 <= v[cut] <= 0xBF) && forall k :: cut < k <= end ==> 0x80 <= v[k] <= 0xBF)
            || (cut == 255 && forall k :: 1 <= k <= end ==> 0x80 <= v[k] <= 0xBF)
  {
    if end > 0 && !RuneStart(v[end]) {
      CutMeaning(v, end - 1);
    }
  }

  function Split(v: seq<byte>): seq<seq<byte>>
    decreases |v|
  {
    if |v| <= MAX_CHUNK then [v]
    else
      CutInRange(v, MAX_CHUNK);
      var cut := CutFrom(v, MAX_CHUNK);
      [v[..cut]] + Split(v[cut..])
  }

  /** Backs up from the size limit to the start of a rune, or gives up and cuts at the limit. */
  method FindCut(v: seq<byte>) returns (end: nat)
    requires |v| > MAX_CHUNK
    ensures end == CutFrom(v, MAX_CHUNK)
  {
    end := MAX_CHUNK;
    while end > 0 && !RuneStart(v[end])
      invariant end <= MAX_CHUNK
      invariant CutFrom(v, end) == CutFrom(v, MAX_CHUNK)
    {
      end := end - 1;
    }
    if end == 0 {
      end := MAX_CHUNK;
    }
  }

  lemma MoveChunk(chunks: seq<seq<byte>>, rest: seq<byte>, end: nat)
    requires |rest| > MAX_CHUNK && end == CutFrom(rest, MAX_CHUNK) && end <= |rest|
    ensures chunks + Split(rest) == (chunks + [rest[..end]]) + Split(rest[end..])
  {
    var tail := Split(rest[end..]);
    assert Split(rest) == [rest[..end]] + tail;
  }

  method SplitTxtValue(value: seq<byte>) returns (chunks: seq<seq<byte>>)
    ensures chunks == Split(value)
  {
    if |value| <= MAX_CHUNK {
      return [value];
    }
    chunks := [];
    var rest := value;
    while |rest| > MAX_CHUNK
      invariant chunks + Split(rest) == Split(value)
      decreases |rest|
    {
      CutInRange(rest, MAX_CHUNK);
      var end := FindCut(rest);
      MoveChunk(chunks, rest, end);
      chunks := chunks + [rest[..end]];
      rest := rest[end..];
    }
    chunks := chunks + [rest];
  }

  function Concat(chunks: seq<seq<byte>>): seq<byte> {
    if chunks == [] then [] else chunks[0] + Concat(chunks[1..])
  }

  /** Joining the chunks gives the value back. */
  lemma {:induction false} SplitRoundTrip(v: seq<byte>)
    ensures Concat(Split(v)) == v
    decreases |v|
  {
    if |v| <= MAX_CHUNK {
      assert [v][1..] == [];
      assert Concat([v]) == v + Concat([v][1..]);
    } else {
      CutInRange(v, MAX_CHUNK);
      var cut := CutFrom(v, MAX_CHUNK);
      SplitRoundTrip(v[cut..]);
      assert Split(v)[1..] == Split(v[cut..]);
    }
  }

  /** Every chunk fits a character-string, and none is empty unless the value is. */
  lemma {:induction false} ChunkSizes(v: seq<byte>)
    ensures Split(v) != []
    ensures forall c <- Split(v) :: |c| <= MAX_CHUNK && (v != [] ==> |c| >= 1)
    decreases |v|
  {
    if |v| > MAX_CHUNK {
      CutInRange(v, MAX_CHUNK);
      ChunkSizes(v[CutFrom(v, MAX_CHUNK)..]);
    }
  }

  // ----- UTF-8 -----

  predicate Continued(v: seq<byte>, n: nat) {
    n <= |v| && forall i :: 1 <= i < n ==> Continuation(v[i])
  }

  /** Length of the well-formed rune at the front, 0 if there is none (table 3-7 of Unicode). */
  function FirstRune(v: seq<byte>): (n: nat)
    ensures n <= 4
    ensures n > 0 ==> Continued(v, n) && RuneStart(v[0])
  {
    if v == [] then 0
    else if v[0] < 0x80 then 1
    else if 0xC2 <= v[0] <= 0xDF && Continued(v, 2) then 2
    else if 0xE0 <= v[0] <= 0xEF && Continued(v, 3)
            && (v[0] == 0xE0 ==> v[1] >= 0xA0) && (v[0] == 0xED ==> v[1] <= 0x9F) then 3
    else if 0xF0 <= v[0] <= 0xF4 && Continued(v, 4)
            && (v[0] == 0xF0 ==> v[1] >= 0x90) && (v[0] == 0xF4 ==> v[1] <= 0x8F) then 4
    else 0
  }

  /** utf8.ValidString */
  predicate ValidUtf8(v: seq<byte>) {
    v == [] || (FirstRune(v) > 0 && ValidUtf8(v[FirstRune(v)..]))
  }

  /** Unicode scalar values and their UTF-8 form (section 3 of RFC 3629). */
  predicate Scalar(cp: nat) {
    cp <= 0x10FFFF && !(0xD800 <= cp <= 0xDFFF)
  }

  function Utf8(cp: nat): (v: seq<byte>)
    requires Scalar(cp)
    ensures 1 <= |v| <= 4
  {
    if cp < 0x80 then [cp]
    else if cp < 0x800 then [0xC0 + cp / 64, 0x80 + cp % 64]
    else if cp < 0x10000 then [0xE0 + cp / 4096, 0x80 + cp / 64 % 64, 0x80 + cp % 64]
    else [0xF0 + cp / 262144, 0x80 + cp / 4096 % 64, 0x80 + cp / 64 % 64, 0x80 + cp % 64]
  }

  lemma ThreeByteBounds(cp: nat)
    requires 0x800 <= cp < 0x10000 && Scalar(cp)
    ensures cp / 4096 < 16 && (cp / 4096 == 0 ==> cp / 64 % 64 >= 32) && (cp / 4096 == 13 ==> cp / 64 % 64 < 32)
  {
    assert cp / 64 / 64 == cp / 4096;
  }

  lemma FourByteBounds(cp: nat)
    requires 0x10000 <= cp && Scalar(cp)
    ensures cp / 262144 <= 4 && (cp / 262144 == 0 ==> cp / 4096 % 64 >= 16) && (cp / 262144 == 4 ==> cp / 4096 % 64 < 16)
  {
    assert cp / 4096 / 64 == cp / 262144;
  }

  lemma EncodedIsRune(cp: nat, rest: seq<byte>)
    requires Scalar(cp)
    ensures FirstRune(Utf8(cp) + rest) == |Utf8(cp)|
  {
    var e := Utf8(cp);
    var v := e + rest;
    assert forall i :: 0 <= i < |e| ==> v[i] == e[i];
    if 0x800 <= cp < 0x10000 {
      ThreeByteBounds(cp);
    } else if cp >= 0x10000 {
      FourByteBounds(cp);
    }
    assert Continued(v, |e|);
  }

  function Low6(b: byte): int {
    (b as int) - 0x80
  }

  function Decoded(v: seq<byte>): int
    requires FirstRune(v) > 0
  {
    var n, head := FirstRune(v), v[0] as int;
    if n == 1 then head
    else if n == 2 then (head - 0xC0) * 64 + Low6(v[1])
    else if n == 3 then (head - 0xE0) * 4096 + Low6(v[1]) * 64 + Low6(v[2])
    else (head - 0xF0) * 262144 + Low6(v[1]) * 4096 + Low6(v[2]) * 64 + Low6(v[3])
  }

  lemma TwoBytes(a: int, b: int)
    requires 2 <= a < 32 && 0 <= b < 64
    ensures var cp := a * 64 + b; 0x80 <= cp < 0x800 && cp / 64 == a && cp % 64 == b
  {
  }

  lemma ThreeBytes(a: int, b: int, c: int)
    requires 0 <= a < 16 && 0 <= b < 64 && 0 <= c < 64 && (a == 0 ==> b >= 32) && (a == 13 ==> b < 32)
    ensures var cp := a * 4096 + b * 64 + c;
            && 0x800 <= cp < 0x10000 && !(0xD800 <= cp <= 0xDFFF)
            && cp / 4096 == a && cp / 64 % 64 == b && cp % 64 == c
  {
    var cp := a * 4096 + b * 64 + c;
    assert cp / 64 == a * 64 + b;
  }

  lemma FourBytes(a: int, b: int, c: int, d: int)
    requires 0 <= a <= 4 && 0 <= b < 64 && 0 <= c < 64 && 0 <= d < 64 && (a == 0 ==> b >= 16) && (a == 4 ==> b < 16)
    ensures var cp := a * 262144 + b * 4096 + c * 64 + d;
            && 0x10000 <= cp <= 0x10FFFF
            && cp / 262144 == a && cp / 4096 % 64 == b && cp / 64 % 64 == c && cp % 64 == d
  {
    var cp := a * 262144 + b * 4096 + c * 64 + d;
    assert cp / 64 == a * 4096 + b * 64 + c;
    assert cp / 4096 == a * 64 + b;
  }

  lemma ShortRuneIsEncoded(v: seq<byte>)
    requires 0 < FirstRune(v) <= 2
    ensures Decoded(v) >= 0 && Scalar(Decoded(v)) && v[..FirstRune(v)] == Utf8(Decoded(v))
  {
    if FirstRune(v) == 2 {
      assert Continuation(v[1]);
      TwoBytes(v[0] as int - 0xC0, Low6(v[1]));
    }
  }

  lemma ThreeByteRuneIsEncoded(v: seq<byte>)
    requires FirstRune(v) == 3
    ensures Decoded(v) >= 0 && Scalar(Decoded(v)) && v[..FirstRune(v)] == Utf8(Decoded(v))
  {
    assert Continuation(v[1]) && Continuation(v[2]);
    ThreeBytes(v[0] as int - 0xE0, Low6(v[1]), Low6(v[2]));
  }

  lemma FourByteRuneIsEncoded(v: seq<byte>)
    requires FirstRune(v) == 4
    ensures Decoded(v) >= 0 && Scalar(Decoded(v)) && v[..FirstRune(v)] == Utf8(Decoded(v))
  {
    assert Continuation(v[1]) && Continuation(v[2]) && Continuation(v[3]);
    FourBytes(v[0] as int - 0xF0, Low6(v[1]), Low6(v[2]), Low6(v[3]));
  }

  lemma RuneIsEncoded(v: seq<byte>)
    requires FirstRune(v) > 0
    ensures Decoded(v) >= 0 && Scalar(Decoded(v)) && v[..FirstRune(v)] == Utf8(Decoded(v))
  {
    if FirstRune(v) == 4 {
      FourByteRuneIsEncoded(v);
    } else if FirstRune(v) == 3 {
      ThreeByteRuneIsEncoded(v);
    } else {
      ShortRuneIsEncoded(v);
    }
  }

  function Utf8All(cps: seq<nat>): seq<byte>
    requires forall cp <- cps :: Scalar(cp)
  {
    if cps == [] then [] else Utf8(cps[0]) + Utf8All(cps[1..])
  }

  /** Exactly the encodings of sequences of scalar values are valid. */
  lemma {:induction false} EncodedIsValid(cps: seq<nat>)
    requires forall cp <- cps :: Scalar(cp)
    ensures ValidUtf8(Utf8All(cps))
  {
    if cps != [] {
      EncodedIsValid(cps[1..]);
      EncodedIsRune(cps[0], Utf8All(cps[1..]));
      assert (Utf8(cps[0]) + Utf8All(cps[1..]))[|Utf8(cps[0])|..] == Utf8All(cps[1..]);
    }
  }

  lemma {:induction false} ValidIsEncoded(v: seq<byte>) returns (cps: seq<nat>)
    requires ValidUtf8(v)
    ensures (forall cp <- cps :: Scalar(cp)) && Utf8All(cps) == v
    decreases |v|
  {
    if v == [] {
      return [];
    }
    var n := FirstRune(v);
    var rest := ValidIsEncoded(v[n..]);
    RuneIsEncoded(v);
    cps := [Decoded(v)] + rest;
    assert cps[1..] == rest && v == v[..n] + v[n..];
  }

  lemma FirstRuneOfPrefix(v: seq<byte>, p: nat)
    requires 0 < FirstRune(v) <= p <= |v|
    ensures FirstRune(v[..p]) == FirstRune(v)
  {
    var n := FirstRune(v);
    assert Continued(v[..p], n);
    assert v[..p][0] == v[0];
    assert n > 1 ==> v[..p][1] == v[1];
  }

  /** In valid UTF-8 a start byte is a rune boundary ... */
  lemma {:induction false} Boundaries(v: seq<byte>, p: nat)
    requires ValidUtf8(v) && p < |v| && RuneStart(v[p])
    ensures ValidUtf8(v[..p]) && ValidUtf8(v[p..])
    decreases |v|
  {
    var n := FirstRune(v);
    if p == 0 {
      assert v[..0] == [] && v[0..] == v;
    } else if p >= n {
      assert v[n..][p - n] == v[p];
      Boundaries(v[n..], p - n);
      assert v[n..][p - n..] == v[p..];
      RunePrefix(v, p);
    }
  }

  lemma RunePrefix(v: seq<byte>, p: nat)
    requires 0 < FirstRune(v) <= p <= |v| && ValidUtf8(v[FirstRune(v)..][..p - FirstRune(v)])
    ensures ValidUtf8(v[..p])
  {
    FirstRuneOfPrefix(v, p);
    assert v[..p][FirstRune(v)..] == v[FirstRune(v)..][..p - FirstRune(v)];
  }

  /** ... and one is never more than three bytes back. */
  lemma {:induction false} StartIsNear(v: seq<byte>, p: nat) returns (q: nat)
    requires ValidUtf8(v) && p < |v|
    ensures q <= p <= q + 3 && RuneStart(v[q])
    decreases |v|
  {
    var n := FirstRune(v);
    if p < n {
      return 0;
    }
    q := StartIsNear(v[n..], p - n);
    assert v[n..][q] == v[n + q];
    q := n + q;
  }

  lemma {:induction false} CutNearBoundary(v: seq<byte>, end: nat, q: nat)
    requires |v| > MAX_CHUNK && q <= end <= MAX_CHUNK && q > 0 && RuneStart(v[q])
    ensures q <= CutFrom(v, end) <= end && RuneStart(v[CutFrom(v, end)])
  {
    if !RuneStart(v[end]) {
      CutNearBoundary(v, end - 1, q);
    }
  }

  lemma CutOfValid(v: seq<byte>)
    requires ValidUtf8(v) && |v| > MAX_CHUNK
    ensures var cut := CutFrom(v, MAX_CHUNK);
            252 <= cut <= MAX_CHUNK && ValidUtf8(v[..cut]) && ValidUtf8(v[cut..])
  {
    var q := StartIsNear(v, MAX_CHUNK);
    CutNearBoundary(v, MAX_CHUNK, q);
    Boundaries(v, CutFrom(v, MAX_CHUNK));
  }

  lemma SplitLong(v: seq<byte>)
    requires |v| > MAX_CHUNK
    ensures var cut := CutFrom(v, MAX_CHUNK);
            1 <= cut <= MAX_CHUNK && Split(v) == [v[..cut]] + Split(v[cut..])
  {
    CutInRange(v, MAX_CHUNK);
  }

  /** No rune is ever cut: every chunk of a valid value is valid by itself, ... */
  lemma {:induction false} ValidChunks(v: seq<byte>, c: seq<byte>)
    requires ValidUtf8(v) && c in Split(v)
    ensures ValidUtf8(c)
    decreases |v|
  {
    if |v| > MAX_CHUNK {
      var cut := CutFrom(v, MAX_CHUNK);
      SplitLong(v);
      CutOfValid(v);
      if c != v[..cut] {
        ValidChunks(v[cut..], c);
      }
    }
  }

  /** ... and every chunk but the last has 252 to 255 bytes. */
  lemma {:induction false} ValidChunkSizes(v: seq<byte>, i: nat)
    requires ValidUtf8(v) && i < |Split(v)| - 1
    ensures 252 <= |Split(v)[i]| <= MAX_CHUNK
    decreases |v|
  {
    if |v| > MAX_CHUNK {
      SplitLong(v);
      CutOfValid(v);
      if i > 0 {
        ValidChunkSizes(v[CutFrom(v, MAX_CHUNK)..], i - 1);
      }
    }
  }

  // ----- wire size -----

  /** Payload plus one length byte per chunk (section 3.3.14 of RFC 1035). */
  function RdataSize(v: seq<byte>): nat {
    |v| + |Split(v)|
  }

  lemma {:induction false} ValidChunkCount(v: seq<byte>)
    requires ValidUtf8(v) && v != []
    ensures 252 * (|Split(v)| - 1) < |v|
    decreases |v|
  {
    if |v| > MAX_CHUNK {
      CutOfValid(v);
      ValidChunkCount(v[CutFrom(v, MAX_CHUNK)..]);
    }
  }

  predicate Ascii(v: seq<byte>) {
    forall i :: 0 <= i < |v| ==> v[i] < 0x80
  }

  lemma {:induction false} AsciiChunkCount(v: seq<byte>)
    requires Ascii(v) && v != []
    ensures 255 * (|Split(v)| - 1) < |v|
    decreases |v|
  {
    if |v| > MAX_CHUNK {
      assert CutFrom(v, MAX_CHUNK) == MAX_CHUNK;
      AsciiChunkCount(v[MAX_CHUNK..]);
    }
  }

  /** ASCII values up to the validator's limit fit one record. */
  lemma AsciiFits(v: seq<byte>)
    requires Ascii(v) && |v| <= MAX_TXT_VALUE
    ensures RdataSize(v) <= MAX_RDATA
  {
    if v != [] {
      AsciiChunkCount(v);
    }
  }

  /** Any valid value fits up to 65275 bytes. */
  lemma ShortValuesFit(v: seq<byte>)
    requires ValidUtf8(v) && |v| <= 65275
    ensures RdataSize(v) <= MAX_RDATA
  {
    if v != [] {
      ValidChunkCount(v);
    }
  }

  /** k copies of a four-byte rune, then ASCII letters. */
  function Runes(k: nat, tail: nat): (v: seq<byte>)
    ensures |v| == 4 * k + tail
    decreases k
  {
    if k == 0 then seq(tail, _ => 0x61)
    else [0xF0, 0x9F, 0x98, 0x80] + Runes(k - 1, tail)
  }

  lemma {:induction false} AsciiValid(tail: nat)
    ensures ValidUtf8(Runes(0, tail))
  {
    if tail > 0 {
      AsciiValid(tail - 1);
      assert Runes(0, tail)[1..] == Runes(0, tail - 1);
    }
  }

  lemma {:induction false} RunesValid(k: nat, tail: nat)
    ensures ValidUtf8(Runes(k, tail))
    decreases k
  {
    if k == 0 {
      AsciiValid(tail);
    } else {
      RunesValid(k - 1, tail);
      var v := Runes(k, tail);
      assert v[4..] == Runes(k - 1, tail);
      assert v[..4] == [0xF0, 0x9F, 0x98, 0x80];
      assert FirstRune(v) == 4;
    }
  }

  lemma {:induction false} RunesDrop(k: nat, tail: nat, j: nat)
    requires j <= k
    ensures Runes(k, tail)[4 * j..] == Runes(k - j, tail)
    decreases j
  {
    if j > 0 {
      RunesDrop(k - 1, tail, j - 1);
      assert Runes(k, tail)[4..] == Runes(k - 1, tail);
      assert Runes(k, tail)[4..][4 * (j - 1)..] == Runes(k, tail)[4 * j..];
    }
  }

  /** Four-byte runes cut at 252 every time. */
  lemma RunesCut(k: nat, tail: nat)
    requires k >= 64
    ensures CutFrom(Runes(k, tail), MAX_CHUNK) == 252
  {
    var v := Runes(k, tail);
    RunesDrop(k, tail, 63);
    var w := Runes(k - 63, tail);
    assert v[252] == w[0] && v[253] == w[1] && v[254] == w[2] && v[255] == w[3];
    assert CutFrom(v, 252) == 252;
    assert CutFrom(v, 253) == 252;
    assert CutFrom(v, 254) == 252;
  }

  lemma RunesSplit(k: nat, tail: nat)
    requires k >= 64
    ensures |Split(Runes(k, tail))| == 1 + |Split(Runes(k - 63, tail))|
  {
    RunesCut(k, tail);
    RunesDrop(k, tail, 63);
  }

  lemma ShortSplit(v: seq<byte>)
    requires |v| <= MAX_CHUNK
    ensures |Split(v)| == 1
  {
  }

  lemma {:induction false} RunesChunks(n: nat, m: nat, tail: nat)
    requires n >= 63 * m + 1 && 4 * (n - 63 * m) + tail <= MAX_CHUNK
    ensures |Split(Runes(n, tail))| == m + 1
    decreases m
  {
    if m > 0 {
      RunesSplit(n, tail);
      RunesChunks(n - 63, m - 1, tail);
    } else {
      ShortSplit(Runes(n, tail));
    }
  }

  /** So 63 of them go into each chunk. */
  lemma RunesChunkCount(m: nat, r: nat, tail: nat)
    requires r >= 1 && 4 * r + tail <= MAX_CHUNK
    ensures |Split(Runes(63 * m + r, tail))| == m + 1
  {
    RunesChunks(63 * m + r, m, tail);
  }

  /** The validator admits 65279 bytes, but a value of this length is sure to fit exactly up to 65275:
      for each longer length some valid value needs more than one record can hold. */
  lemma LengthLimitIsExact(len: nat)
    requires len <= MAX_TXT_VALUE
    ensures (forall v: seq<byte> :: ValidUtf8(v) && |v| == len ==> RdataSize(v) <= MAX_RDATA) <==> len <= 65275
  {
    if len <= 65275 {
      forall v: seq<byte> | ValidUtf8(v) && |v| == len ensures RdataSize(v) <= MAX_RDATA {
        ShortValuesFit(v);
      }
    } else {
      var tail := len - 65276;
      var v := Runes(63 * 259 + 2, tail);
      RunesValid(63 * 259 + 2, tail);
      RunesChunkCount(259, 2, tail);
      assert RdataSize(v) > MAX_RDATA;
    }
  }
}
