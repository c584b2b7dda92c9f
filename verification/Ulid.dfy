/** The monotonic ULID generator behind zone versions. */
module Ulid {
  import opened Ordering
  import opened Digits
  import opened ZoneModel

  const TWO_48: nat := 0x1_0000_0000_0000
  const TWO_64: nat := 0x1_0000_0000_0000_0000

  type byte = x: nat | x < 256
  type Random = s: seq<byte> | |s| == 10 witness [0, 0, 0, 0, 0, 0, 0, 0, 0, 0]

  // ----- the 80-bit increment -----

  lemma {:induction false} CarryRipples(s: seq<nat>, t: seq<nat>, i: nat)
    requires |s| == |t| && i < |s|
    requires t[..i] == s[..i] && t[i] == s[i] + 1
    requires forall j :: i < j < |s| ==> s[j] == 255 && t[j] == 0
    ensures Value(256, t) == Value(256, s) + 1
  {
    var n := |s|;
    if i < n - 1 {
      assert t[..n - 1][..i] == s[..n - 1][..i];
      CarryRipples(s[..n - 1], t[..n - 1], i);
    } else {
      assert t[..n - 1] == s[..n - 1];
    }
  }

  /** Adds one in place; on overflow reports failure, having wrapped to zero. */
  method Increment80(v: array<byte>) returns (ok: bool)
    requires v.Length == 10
    modifies v
    ensures ok ==> Value(256, v[..]) == Value(256, old(v[..])) + 1
    ensures !ok <==> forall j :: 0 <= j < 10 ==> old(v[j]) == 255
  {
    var i := 9;
    while i >= 0
      invariant -1 <= i <= 9
      invariant v[..i + 1] == old(v[..])[..i + 1]
      invariant forall j :: i < j < 10 ==> v[j] == 0 && old(v[j]) == 255
    {
      assert v[i] == v[..i + 1][i] == old(v[..])[i];
      var bumped: int := v[i] as int + 1;
      v[i] := bumped % 256;
      if v[i] != 0 {
        assert v[..i] == old(v[..])[..i] by {
          assert forall j :: 0 <= j < i ==> v[j] == v[..i + 1][j];
        }
        CarryRipples(old(v[..]), v[..], i);
        return true;
      }
      i := i - 1;
    }
    return false;
  }

  // ----- the encoder -----

  const ALPHABET := "0123456789ABCDEFGHJKMNPQRSTVWXYZ"

  /** Crockford's alphabet: the digits and the capital letters but I, L, O and U. With AlphabetAscends that
      says which character stands for which digit. */
  lemma AlphabetMeaning(i: nat)
    requires i < 32
    ensures |ALPHABET| == 32
    ensures var c := ALPHABET[i];
            '0' <= c <= '9' || ('A' <= c <= 'Z' && c != 'I' && c != 'L' && c != 'O' && c != 'U')
  {
  }

  lemma AlphabetAscends(i: nat, j: nat)
    requires i < j < 32
    ensures |ALPHABET| == 32 && ALPHABET[i] < ALPHABET[j]
  {
  }

  /** The 16 bytes a ULID encodes: the low 48 bits of the clock, then the random part. */
  function Data(ms: nat, rnd: Random): (d: seq<byte>)
    ensures |d| == 16
  {
    [ms / 0x100_0000_0000 % 256, ms / 0x1_0000_0000 % 256, ms / 0x100_0000 % 256,
     ms / 0x1_0000 % 256, ms / 0x100 % 256, ms % 256] + rnd
  }

  /** The 128-bit number a ULID stands for. */
  ghost function Number(ms: nat, rnd: Random): nat {
    (ms % TWO_48) * Pow(256, 10) + Value(256, rnd)
  }

  lemma MulAtLeast(n: nat, k: int)
    requires k >= 1
    ensures n * k >= n
  {
  }

  lemma ModUnique(x: nat, n: nat, a: nat, r: nat)
    requires x == n * a + r && r < n
    ensures x % n == r
  {
    var q, m := x / n, x % n;
    assert n * (a - q) == m - r by {
      assert x == n * q + m;
      assert n * (a - q) == n * a - n * q;
    }
    if a > q {
      MulAtLeast(n, a - q);
    } else if a < q {
      MulAtLeast(n, q - a);
    }
  }

  /** Appending the low byte of x to its higher part modulo m. */
  lemma LowByte(x: nat, m: nat)
    requires m > 0
    ensures (x / 256 % m) * 256 + x % 256 == x % (256 * m)
  {
    var q := x / 256;
    var a, b := q / m, q % m;
    assert 256 * q == 256 * m * a + 256 * b by {
      assert q == m * a + b;
    }
    ModUnique(x, 256 * m, a, b * 256 + x % 256);
  }

  /** The clock bytes, most significant first, are the clock modulo 2^48. */
  lemma SixBytes(ms: nat)
    ensures Value(256, Data(ms, seq(10, _ => 0))[..6]) == ms % TWO_48
  {
    var b: seq<nat> := Data(ms, seq(10, _ => 0))[..6];
    var x1, x2, x3, x4 := ms / 0x100, ms / 0x1_0000, ms / 0x100_0000, ms / 0x1_0000_0000;
    assert x2 == x1 / 256 && x3 == x2 / 256 && x4 == x3 / 256 && ms / 0x100_0000_0000 == x4 / 256;
    assert b == [] + [b[0]] + [b[1]] + [b[2]] + [b[3]] + [b[4]] + [b[5]];
    ValueAppend(256, [], b[0]);
    ValueAppend(256, [] + [b[0]], b[1]);
    ValueAppend(256, [] + [b[0]] + [b[1]], b[2]);
    ValueAppend(256, [] + [b[0]] + [b[1]] + [b[2]], b[3]);
    ValueAppend(256, [] + [b[0]] + [b[1]] + [b[2]] + [b[3]], b[4]);
    ValueAppend(256, [] + [b[0]] + [b[1]] + [b[2]] + [b[3]] + [b[4]], b[5]);
    LowByte(x4, 0x100);
    LowByte(x3, 0x1_0000);
    LowByte(x2, 0x100_0000);
    LowByte(x1, 0x1_0000_0000);
    LowByte(ms, 0x100_0000_0000);
  }

  lemma DataValue(ms: nat, rnd: Random)
    ensures Value(256, Data(ms, rnd)) == Number(ms, rnd)
  {
    SixBytes(ms);
    assert Data(ms, rnd)[..6] == Data(ms, seq(10, _ => 0))[..6];
    ValueSplit(256, Data(ms, rnd)[..6], rnd);
    assert Data(ms, rnd) == Data(ms, rnd)[..6] + rnd;
  }

  function Chars(digits: seq<nat>): (s: string)
    requires InBase(32, digits)
    ensures |s| == |digits|
  {
    seq(|digits|, i requires 0 <= i < |digits| => ALPHABET[digits[i]])
  }

  lemma ByteStep(n: nat, p: nat, buf: nat, v: nat, b: byte)
    requires n * p + buf == v && buf < p
    ensures n * (256 * p) + (buf * 256 + b) == v * 256 + b
    ensures buf * 256 + b < 256 * p
  {
    assert (n * p + buf) * 256 == n * (256 * p) + buf * 256;
  }

  lemma PowAdd5(n: nat)
    ensures Pow(2, n + 5) == 32 * Pow(2, n)
  {
    assert Pow(2, n + 5) == 2 * Pow(2, n + 4);
    assert Pow(2, n + 4) == 2 * Pow(2, n + 3);
    assert Pow(2, n + 3) == 2 * Pow(2, n + 2);
    assert Pow(2, n + 2) == 2 * Pow(2, n + 1);
  }

  lemma PowAdd8(n: nat)
    ensures Pow(2, n + 8) == 256 * Pow(2, n)
  {
    PowAdd5(n + 3);
    assert Pow(2, n + 3) == 2 * Pow(2, n + 2);
    assert Pow(2, n + 2) == 2 * Pow(2, n + 1);
  }

  lemma {:induction false} PowPositive(n: nat)
    ensures Pow(2, n) > 0
  {
    if n > 0 {
      PowPositive(n - 1);
    }
  }

  /** The 26 base-32 digits of the 128-bit number. */
  ghost predicate EncodingOf(digits: seq<nat>, ms: nat, rnd: Random) {
    |digits| == 26 && InBase(32, digits) && Value(32, digits) == Number(ms, rnd)
  }

  /** The digits written so far and the buffered bits together hold the number v. */
  ghost predicate Holds(out: seq<nat>, buf: nat, nbits: nat, v: nat) {
    InBase(32, out) && buf < Pow(2, nbits) && Value(32, out) * Pow(2, nbits) + buf == v
  }

  lemma HoldsByte(out: seq<nat>, buf: nat, nbits: nat, v: nat, b: byte)
    requires Holds(out, buf, nbits, v)
    ensures Holds(out, buf * 256 + b, nbits + 8, v * 256 + b)
  {
    PowAdd8(nbits);
    ByteStep(Value(32, out), Pow(2, nbits), buf, v, b);
  }

  /** The five bits of buf above the lowest k. */
  function TopDigit(buf: nat, k: nat): nat {
    PowPositive(k);
    buf / Pow(2, k) % 32
  }

  function LowBits(buf: nat, k: nat): nat {
    PowPositive(k);
    buf % Pow(2, k)
  }

  lemma QuotientFits(buf: nat, p: nat)
    requires p > 0 && buf < 32 * p
    ensures buf / p % 32 * p + buf % p == buf && buf % p < p
  {
    var q, r := buf / p, buf % p;
    assert buf == q * p + r;
    if q >= 32 {
      QuotientBound(q, p);
    }
    SmallMod(q);
  }

  lemma QuotientBound(q: nat, p: nat)
    requires q >= 32
    ensures q * p >= 32 * p
  {
  }

  lemma SmallMod(q: nat)
    requires q < 32
    ensures q % 32 == q
  {
  }

  lemma DigitSplit(buf: nat, k: nat)
    requires buf < 32 * Pow(2, k)
    ensures TopDigit(buf, k) < 32 && LowBits(buf, k) < Pow(2, k)
    ensures TopDigit(buf, k) * Pow(2, k) + LowBits(buf, k) == buf
  {
    PowPositive(k);
    QuotientFits(buf, Pow(2, k));
  }

  lemma MoveDigit(n: nat, p: nat, q: nat, r: nat, v: nat)
    requires n * (32 * p) + (q * p + r) == v
    ensures (n * 32 + q) * p + r == v
  {
    assert (n * 32 + q) * p == n * (32 * p) + q * p;
  }

  lemma HoldsDigit(out: seq<nat>, buf: nat, k: nat, v: nat, q: nat, r: nat)
    requires Holds(out, buf, k + 5, v) && q < 32 && r < Pow(2, k) && q * Pow(2, k) + r == buf
    ensures Holds(out + [q], r, k, v)
  {
    PowAdd5(k);
    MoveDigit(Value(32, out), Pow(2, k), q, r, v);
    ValueAppend(32, out, q);
  }

  lemma PopStep(out: seq<nat>, buf: nat, k: nat, v: nat)
    requires Holds(out, buf, k + 5, v)
    ensures Holds(out + [TopDigit(buf, k)], LowBits(buf, k), k, v)
  {
    PowAdd5(k);
    DigitSplit(buf, k);
    HoldsDigit(out, buf, k, v, TopDigit(buf, k), LowBits(buf, k));
  }

  method PopDigit(out0: seq<nat>, buf0: nat, nbits0: nat, ghost v: nat)
    returns (out: seq<nat>, buf: nat, nbits: nat)
    requires Holds(out0, buf0, nbits0, v) && nbits0 >= 5
    ensures Holds(out, buf, nbits, v) && nbits == nbits0 - 5 && |out| == |out0| + 1
  {
    var shift := nbits0 - 5;
    PopStep(out0, buf0, shift, v);
    return out0 + [TopDigit(buf0, shift)], LowBits(buf0, shift), shift;
  }

  /** Shifts one byte in and every complete five-bit digit out. */
  method PushByte(out0: seq<nat>, buf0: nat, nbits0: nat, b: byte, ghost v: nat)
    returns (out: seq<nat>, buf: nat, nbits: nat)
    requires Holds(out0, buf0, nbits0, v) && nbits0 < 5
    ensures Holds(out, buf, nbits, v * 256 + b) && nbits < 5
    ensures 5 * |out| + nbits == 5 * |out0| + nbits0 + 8
  {
    HoldsByte(out0, buf0, nbits0, v, b);
    out, buf, nbits := out0, buf0 * 256 + b, nbits0 + 8;
    while nbits >= 5
      invariant Holds(out, buf, nbits, v * 256 + b)
      invariant 5 * |out| + nbits == 5 * |out0| + nbits0 + 8
    {
      out, buf, nbits := PopDigit(out, buf, nbits, v * 256 + b);
    }
  }

  /** The bit buffer: 16 bytes in, 26 five-bit digits out, two leading zero bits. */
  method EncodeUlid(ms: nat, rnd: Random) returns (s: string, ghost digits: seq<nat>)
    ensures EncodingOf(digits, ms, rnd) && s == Chars(digits)
  {
    var data := Data(ms, rnd);
    var out: seq<nat> := [];
    var buf: nat := 0;
    var nbits: nat := 2;
    PowPositive(2);
    for i := 0 to 16
      invariant Holds(out, buf, nbits, Value(256, data[..i])) && nbits < 5
      invariant 5 * |out| + nbits == 8 * i + 2
    {
      assert data[..i + 1] == data[..i] + [data[i]];
      ValueAppend(256, data[..i], data[i]);
      out, buf, nbits := PushByte(out, buf, nbits, data[i], Value(256, data[..i]));
    }
    assert data[..16] == data;
    assert Pow(2, 0) == 1 && buf == 0;
    DataValue(ms, rnd);
    return Chars(out), out;
  }

  // ----- decoding and order -----

  function IndexFrom(c: char, i: nat): nat
    requires i <= 32
    decreases 32 - i
  {
    if i == 32 || ALPHABET[i] == c then i else IndexFrom(c, i + 1)
  }

  function DigitOf(c: char): nat {
    IndexFrom(c, 0)
  }

  ghost function Decode(s: string): nat {
    Value(32, seq(|s|, i requires 0 <= i < |s| => DigitOf(s[i])))
  }

  lemma {:induction false} DigitOfChar(d: nat, i: nat)
    requires i <= d < 32
    ensures IndexFrom(ALPHABET[d], i) == d
    decreases d - i
  {
    if i < d {
      AlphabetAscends(i, d);
      DigitOfChar(d, i + 1);
    }
  }

  /** Reading the 26 characters back gives the same 48+80 bits. */
  lemma DecodeInvertsEncode(digits: seq<nat>, ms: nat, rnd: Random)
    requires EncodingOf(digits, ms, rnd)
    ensures Decode(Chars(digits)) == Number(ms, rnd)
  {
    var s := Chars(digits);
    forall i | 0 <= i < |s| ensures DigitOf(s[i]) == digits[i] {
      DigitOfChar(digits[i], 0);
    }
    assert seq(|s|, i requires 0 <= i < |s| => DigitOf(s[i])) == digits;
  }

  lemma {:induction false} CharsKeepOrder(s: seq<nat>, t: seq<nat>)
    requires |s| == |t| && InBase(32, s) && InBase(32, t)
    ensures StringLess(Chars(s), Chars(t)) <==> DigitsLess(s, t)
  {
    if s != [] {
      CharsKeepOrder(s[1..], t[1..]);
      assert Chars(s)[1..] == Chars(s[1..]) && Chars(t)[1..] == Chars(t[1..]);
      if s[0] < t[0] {
        AlphabetAscends(s[0], t[0]);
      } else if t[0] < s[0] {
        AlphabetAscends(t[0], s[0]);
      }
    }
  }

  /** String order of two ULIDs is the order of their numbers. */
  lemma UlidOrder(a: seq<nat>, msA: nat, rndA: Random, b: seq<nat>, msB: nat, rndB: Random)
    requires EncodingOf(a, msA, rndA) && EncodingOf(b, msB, rndB)
    ensures StringLess(Chars(a), Chars(b)) <==> Number(msA, rndA) < Number(msB, rndB)
  {
    OrderIsNumeric(32, a, b);
    CharsKeepOrder(a, b);
  }

  // ----- the generator -----

  datatype Source = Source(lastMS: nat, lastRnd: Random)

  /** One call: the clock it read and what the random source gave, None on failure. */
  datatype Call = Call(ms: nat, draw: Option<Random>)

  ghost predicate AllOnes(r: Random) {
    forall j :: 0 <= j < 10 ==> r[j] == 255
  }

  /** What one call does to the state, and the bits it hands out (None when it returns an error). */
  ghost predicate Issues(s: Source, c: Call, s': Source, issued: Option<Source>) {
    if c.ms > s.lastMS then
      if c.draw.None? then s' == s && issued == None
      else s' == Source(c.ms, c.draw.value) && issued == Some(s')
    else if AllOnes(s.lastRnd) then s' == s && issued == None
    else s'.lastMS == s.lastMS && Value(256, s'.lastRnd) == Value(256, s.lastRnd) + 1 && issued == Some(s')
  }

  /** What a call hands out: the later of its clock and the last one used, with the draw if the clock moved
      on and the last randomness plus one if not; an error exactly if that needs a draw that failed or
      overflows; and on an error the state stays. */
  lemma IssuedMeaning(s: Source, c: Call, s': Source, issued: Option<Source>)
    requires Issues(s, c, s', issued)
    ensures issued.None? <==> (c.ms > s.lastMS && c.draw.None?) || (c.ms <= s.lastMS && forall j :: 0 <= j < 10 ==> s.lastRnd[j] == 255)
    ensures issued.None? ==> s' == s
    ensures issued.Some? ==>
              && issued.value == s'
              && s'.lastMS == (if c.ms > s.lastMS then c.ms else s.lastMS)
              && (c.ms > s.lastMS ==> Some(s'.lastRnd) == c.draw)
              && (c.ms <= s.lastMS ==> Value(256, s'.lastRnd) == Value(256, s.lastRnd) + 1)
  {
  }

  lemma NumberOrder(s: Source, t: Source)
    ensures Number(s.lastMS, s.lastRnd) < Number(t.lastMS, t.lastRnd)
            <==> s.lastMS % TWO_48 < t.lastMS % TWO_48
                 || (s.lastMS % TWO_48 == t.lastMS % TWO_48 && Value(256, s.lastRnd) < Value(256, t.lastRnd))
  {
    var a, b, p := s.lastMS % TWO_48, t.lastMS % TWO_48, Pow(256, 10);
    ValueBound(256, s.lastRnd);
    ValueBound(256, t.lastRnd);
    if a < b {
      LeadingDigitDecides(a, b, p, Value(256, s.lastRnd), Value(256, t.lastRnd));
    } else if b < a {
      LeadingDigitDecides(b, a, p, Value(256, t.lastRnd), Value(256, s.lastRnd));
    }
  }

  /** Exactly when a call that moves the clock forward hands out a larger number: the 48-bit
      timestamp field must not wrap back. */
  lemma IssueGrowsIff(s: Source, c: Call, s': Source)
    requires Issues(s, c, s', Some(s')) && c.ms > s.lastMS
    ensures Number(s.lastMS, s.lastRnd) < Number(s'.lastMS, s'.lastRnd)
            <==> s.lastMS % TWO_48 < c.ms % TWO_48
                 || (s.lastMS % TWO_48 == c.ms % TWO_48 && Value(256, s.lastRnd) < Value(256, s'.lastRnd))
  {
    NumberOrder(s, s');
  }

  /** A clock past the 48-bit field (or before 1970, which converts to a huge unsigned value) breaks it. */
  lemma WrappedClockGoesBack(r: Random)
    ensures var s := Source(TWO_48 - 1, r);
            var s' := Source(TWO_48, r);
            Issues(s, Call(TWO_48, Some(r)), s', Some(s'))
            && Number(s'.lastMS, s'.lastRnd) < Number(s.lastMS, s.lastRnd)
  {
    NumberOrder(Source(TWO_48, r), Source(TWO_48 - 1, r));
  }

  /** States s[0], s[1], ... of a run and what each call handed out. */
  ghost predicate IsRun(calls: seq<Call>, states: seq<Source>, issued: seq<Option<Source>>) {
    && |states| == |calls| + 1 && |issued| == |calls|
    && states[0].lastMS < TWO_48
    && (forall i :: 0 <= i < |calls| ==> calls[i].ms < TWO_48)
    && forall i :: 0 <= i < |calls| ==> Issues(states[i], calls[i], states[i + 1], issued[i])
  }

  /** The state never moves back, whatever the clock does and whichever calls fail. */
  lemma {:induction false} StateGrows(calls: seq<Call>, states: seq<Source>, issued: seq<Option<Source>>, i: nat, j: nat)
    requires IsRun(calls, states, issued) && i <= j <= |calls|
    ensures states[j].lastMS < TWO_48
    ensures i == j || Number(states[i].lastMS, states[i].lastRnd) <= Number(states[j].lastMS, states[j].lastRnd)
    ensures i < j && issued[j - 1].Some? ==>
              Number(states[i].lastMS, states[i].lastRnd) < Number(states[j].lastMS, states[j].lastRnd)
    decreases j
  {
    if j > 0 {
      assert Issues(states[j - 1], calls[j - 1], states[j - 1 + 1], issued[j - 1]);
      NumberOrder(states[j - 1], states[j]);
      if i < j {
        StateGrows(calls, states, issued, i, j - 1);
      } else {
        StateGrows(calls, states, issued, 0, j - 1);
      }
    }
  }

  /** Any run of calls, under clocks that stall or go back and with failures in between, hands out
      strictly increasing strings. */
  lemma UlidsIncrease(calls: seq<Call>, states: seq<Source>, issued: seq<Option<Source>>,
                      i: nat, j: nat, a: seq<nat>, b: seq<nat>)
    requires IsRun(calls, states, issued) && i < j < |calls|
    requires issued[i].Some? && issued[j].Some?
    requires EncodingOf(a, issued[i].value.lastMS, issued[i].value.lastRnd)
    requires EncodingOf(b, issued[j].value.lastMS, issued[j].value.lastRnd)
    ensures StringLess(Chars(a), Chars(b))
    ensures StringLess("v" + Chars(a), "v" + Chars(b))
  {
    assert Issues(states[i], calls[i], states[i + 1], issued[i]);
    assert Issues(states[j], calls[j], states[j + 1], issued[j]);
    StateGrows(calls, states, issued, i + 1, j + 1);
    UlidOrder(a, states[i + 1].lastMS, states[i + 1].lastRnd, b, states[j + 1].lastMS, states[j + 1].lastRnd);
    assert ("v" + Chars(a))[1..] == Chars(a) && ("v" + Chars(b))[1..] == Chars(b);
  }

  class Generator {
    var lastMS: nat
    var lastRnd: Random

    ghost function View(): Source
      reads this
    {
      Source(lastMS, lastRnd)
    }

    constructor ()
      ensures View() == Source(0, [0, 0, 0, 0, 0, 0, 0, 0, 0, 0])
    {
      lastMS := 0;
      lastRnd := [0, 0, 0, 0, 0, 0, 0, 0, 0, 0];
    }

    method NewUlid(now: nat, draw: Option<Random>) returns (id: Option<string>, ghost issued: Option<Source>)
      requires now < TWO_64
      modifies this
      ensures Issues(old(View()), Call(now, draw), View(), issued)
      ensures id.Some? <==> issued.Some?
      ensures id.Some? ==> exists digits: seq<nat> ::
                             EncodingOf(digits, issued.value.lastMS, issued.value.lastRnd) && id.value == Chars(digits)
    {
      var ms := now;
      var rnd: Random;
      if ms > lastMS {
        if draw.None? {
          return None, None;
        }
        rnd := draw.value;
        lastMS := ms;
        lastRnd := rnd;
      } else {
        ms := lastMS;
        var v := new byte[10](i requires 0 <= i < 10 reads this => lastRnd[i]);
        assert v[..] == lastRnd;
        var ok := Increment80(v);
        if !ok {
          assert AllOnes(lastRnd);
          return None, None;
        }
        rnd := v[..];
        lastRnd := rnd;
      }
      var s, digits := EncodeUlid(ms, rnd);
      return Some(s), Some(View());
    }
  }
}
