/** Java's modified UTF-8 (section 4.4.7 of the Java Virtual Machine Specification): conversion between
    UTF-16 units and zero-terminated byte strings. */
module ModifiedUtf8 {
  import Align
  import opened Wrappers

  const REPLACEMENT: bv16 := 0xfffd
  const UPPER_LIMIT: bv32 := 0x10fffd

  /** A byte whose two upper bits are 10. */
  predicate IsContinuation(b: bv8) {
    0x80 <= b <= 0xbf
  }

  // ----- UTF-16 to bytes

  function EncodeUnit(u: bv16): (s: seq<bv8>)
    ensures 1 <= |s| <= 3
  {
    if u > 0x07ff then
      [((u >> 12) as bv8) | 0xe0, (((u >> 6) & 0x3f) as bv8) | 0x80, ((u & 0x3f) as bv8) | 0x80]
    else if u > 0x7f || u == 0 then
      [((u >> 6) as bv8) | 0xc0, ((u & 0x3f) as bv8) | 0x80]
    else [u as bv8]
  }

  function Encode(us: seq<bv16>): seq<bv8> {
    if us == [] then [] else EncodeUnit(us[0]) + Encode(us[1..])
  }

  // ----- bytes to UTF-16

  /** The number of bytes a lead byte announces; leads from 0xf8 on count as four-byte leads. */
  function SeqLength(b: bv8): nat {
    if b < 0x80 then 1 else if b < 0xe0 then 2 else if b < 0xf0 then 3 else 4
  }

  function LeaderMask(n: nat): bv8 {
    if n == 1 then 0xff else if n == 2 then 0x1f else if n == 3 then 0x0f else 0x07
  }

  function ShiftIn(code: bv32, b: bv8): bv32 {
    (code << 6) | ((b & 0x3f) as bv32)
  }

  /** Reads continuation bytes from position `i` until the sequence has `n` bytes; stops early at the end
      of the string or at any other byte. */
  function Continue(s: seq<bv8>, n: nat, i: nat, code: bv32): (r: (bv32, nat))
    requires i <= n && i <= |s|
    ensures i <= r.1 <= |s| && r.1 <= n
    decreases n - i
  {
    if i == n then (code, i)
    else if i == |s| || !IsContinuation(s[i]) then (REPLACEMENT as bv32, i)
    else Continue(s, n, i + 1, ShiftIn(code, s[i]))
  }

  /** `getUtf32FromUtf8`: the next code and the number of bytes it took. */
  function Next(s: seq<bv8>): (r: (bv32, nat))
    requires s != []
    ensures 1 <= r.1 <= |s| && r.1 <= 4
  {
    if IsContinuation(s[0]) then (REPLACEMENT as bv32, 1)
    else
      var n := SeqLength(s[0]);
      Continue(s, n, 1, (s[0] & LeaderMask(n)) as bv32)
  }

  /** The UTF-16 units written for one code. */
  function Units(code: bv32): seq<bv16> {
    if code <= 0xffff then [code as bv16]
    else if code <= UPPER_LIMIT then
      [0xd800 | (((code - 0x10000) >> 10) as bv16), 0xdc00 | (((code - 0x10000) & 0x3ff) as bv16)]
    else [REPLACEMENT]
  }

  function Decode(s: seq<bv8>): seq<bv16> {
    if s == [] then []
    else
      var (code, n) := Next(s);
      Units(code) + Decode(s[n..])
  }

  // ----- round trips

  // The bit layout of one, two and three byte sequences (section 3 of RFC 3629).

  lemma OneByteBits(u: bv16)
    requires 0 < u <= 0x7f
    ensures var a := u as bv8;
            a != 0 && a < 0x80 && !IsContinuation(a) && (a & 0xff) as bv32 == u as bv32
  {
  }

  lemma TwoByteBits(u: bv16)
    requires u <= 0x7ff
    ensures var a, b := ((u >> 6) as bv8) | 0xc0, ((u & 0x3f) as bv8) | 0x80;
            && 0xc0 <= a < 0xe0 && !IsContinuation(a) && IsContinuation(b) && b != 0
            && ShiftIn((a & 0x1f) as bv32, b) == u as bv32
  {
  }

  lemma ThreeByteBits(u: bv16)
    ensures var a, b, c := ((u >> 12) as bv8) | 0xe0, (((u >> 6) & 0x3f) as bv8) | 0x80, ((u & 0x3f) as bv8) | 0x80;
            && 0xe0 <= a < 0xf0 && !IsContinuation(a) && IsContinuation(b) && IsContinuation(c) && b != 0 && c != 0
            && ShiftIn(ShiftIn((a & 0x0f) as bv32, b), c) == u as bv32
  {
  }

  /** The loop over continuation bytes, unrolled. */
  lemma UnrollContinue(s: seq<bv8>, n: nat, code: bv32, b1: bv8, b2: bv8, b3: bv8)
    requires s != [] && 1 <= n <= 4
    requires (|s| > 1 ==> b1 == s[1]) && (|s| > 2 ==> b2 == s[2]) && (|s| > 3 ==> b3 == s[3])
    ensures var c1, c2, c3 := |s| > 1 && IsContinuation(b1),
            |s| > 2 && IsContinuation(b2), |s| > 3 && IsContinuation(b3);
            Continue(s, n, 1, code) ==
              if n == 1 then (code, 1)
              else if !c1 then (REPLACEMENT as bv32, 1)
              else if n == 2 then (ShiftIn(code, b1), 2)
              else if !c2 then (REPLACEMENT as bv32, 2)
              else if n == 3 then (ShiftIn(ShiftIn(code, b1), b2), 3)
              else if !c3 then (REPLACEMENT as bv32, 3)
              else (ShiftIn(ShiftIn(ShiftIn(code, b1), b2), b3), 4)
  {
    if n >= 2 && |s| > 1 && IsContinuation(b1) {
      assert Continue(s, n, 1, code) == Continue(s, n, 2, ShiftIn(code, b1));
      if n >= 3 && |s| > 2 && IsContinuation(b2) {
        assert Continue(s, n, 2, ShiftIn(code, b1)) == Continue(s, n, 3, ShiftIn(ShiftIn(code, b1), b2));
      }
    }
  }

  /** Reading a complete sequence of one, two or three bytes. */
  lemma NextOne(s: seq<bv8>, code: bv32)
    requires s != [] && s[0] < 0x80 && (s[0] & 0xff) as bv32 == code
    ensures Next(s) == (code, 1)
  {
  }

  lemma NextTwo(s: seq<bv8>, code: bv32)
    requires |s| >= 2 && 0xc0 <= s[0] < 0xe0 && IsContinuation(s[1])
    requires ShiftIn((s[0] & 0x1f) as bv32, s[1]) == code
    ensures Next(s) == (code, 2)
  {
  }

  lemma NextThree(s: seq<bv8>, code: bv32)
    requires |s| >= 3 && 0xe0 <= s[0] < 0xf0 && IsContinuation(s[1]) && IsContinuation(s[2])
    requires ShiftIn(ShiftIn((s[0] & 0x0f) as bv32, s[1]), s[2]) == code
    ensures Next(s) == (code, 3)
  {
    UnrollContinue(s, 3, (s[0] & 0x0f) as bv32, s[1], s[2], if |s| > 3 then s[3] else 0);
  }

  /** Decoding what one unit was encoded to, whatever follows it. */
  lemma NextOfUnit(u: bv16, rest: seq<bv8>)
    ensures Next(EncodeUnit(u) + rest) == (u as bv32, |EncodeUnit(u)|)
  {
    var s := EncodeUnit(u) + rest;
    if u > 0x7ff {
      ThreeByteBits(u);
      NextThree(s, u as bv32);
    } else if u > 0x7f || u == 0 {
      TwoByteBits(u);
      NextTwo(s, u as bv32);
    } else {
      OneByteBits(u);
      NextOne(s, u as bv32);
    }
  }

  lemma UnitsOfUnit(u: bv16)
    ensures Units(u as bv32) == [u]
  {
  }

  /** Every UTF-16 sequence, with embedded zeros and unpaired surrogates, survives encoding. */
  lemma {:induction false} DecodeEncode(us: seq<bv16>)
    ensures Decode(Encode(us)) == us
  {
    if us != [] {
      DecodeUnit(us[0], EncodeUnit(us[0]), Encode(us[1..]));
      DecodeEncode(us[1..]);
    }
  }

  lemma DecodeUnit(u: bv16, e: seq<bv8>, rest: seq<bv8>)
    requires e == EncodeUnit(u)
    ensures Decode(e + rest) == [u] + Decode(rest)
  {
    NextOfUnit(u, rest);
    UnitsOfUnit(u);
    assert (e + rest)[|e|..] == rest;
    DecodeOnce(e + rest, u as bv32, |e|, rest);
  }

  lemma DecodeOnce(s: seq<bv8>, code: bv32, n: nat, rest: seq<bv8>)
    requires s != [] && Next(s) == (code, n) && n <= |s| && rest == s[n..]
    ensures Decode(s) == Units(code) + Decode(rest)
  {
  }

  lemma UnitHasNoZero(u: bv16)
    ensures 0 !in EncodeUnit(u)
  {
    if u > 0x7ff {
      ThreeByteBits(u);
    } else if u > 0x7f || u == 0 {
      TwoByteBits(u);
    } else {
      OneByteBits(u);
    }
  }

  /** Encoding never produces a zero byte, so the terminator is the only one. */
  lemma {:induction false} EncodeHasNoZero(us: seq<bv16>)
    ensures 0 !in Encode(us)
  {
    if us != [] {
      UnitHasNoZero(us[0]);
      EncodeHasNoZero(us[1..]);
    }
  }

  /** One well-formed sequence at the start of `s`: its length, or zero. */
  function CanonicalLength(s: seq<bv8>): (n: nat)
    ensures n <= |s| && n <= 3
  {
    if |s| >= 1 && 0 < s[0] < 0x80 then 1
    else if |s| >= 2 && IsContinuation(s[1]) && ((s[0] == 0xc0 && s[1] == 0x80) || 0xc2 <= s[0] <= 0xdf) then 2
    else if |s| >= 3 && IsContinuation(s[1]) && IsContinuation(s[2])
            && ((s[0] == 0xe0 && 0xa0 <= s[1]) || 0xe1 <= s[0] <= 0xef) then 3
    else 0
  }

  /** A string of shortest-form one, two and three byte sequences, zero written as two bytes. */
  predicate Canonical(s: seq<bv8>) {
    s == [] || (CanonicalLength(s) > 0 && Canonical(s[CanonicalLength(s)..]))
  }

  lemma UnitIsCanonical(u: bv16, rest: seq<bv8>)
    ensures CanonicalLength(EncodeUnit(u) + rest) == |EncodeUnit(u)|
  {
  }

  lemma {:induction false} EncodeIsCanonical(us: seq<bv16>)
    ensures Canonical(Encode(us))
  {
    if us != [] {
      var e, rest := EncodeUnit(us[0]), Encode(us[1..]);
      UnitIsCanonical(us[0], rest);
      assert (e + rest)[|e|..] == rest;
      EncodeIsCanonical(us[1..]);
    }
  }

  /** A canonical sequence decodes to one unit and that unit encodes back to it. */
  lemma CanonicalNext(s: seq<bv8>) returns (u: bv16)
    requires CanonicalLength(s) > 0
    ensures Next(s) == (u as bv32, CanonicalLength(s)) && EncodeUnit(u) == s[..CanonicalLength(s)]
  {
    var n := CanonicalLength(s);
    if n == 1 {
      u := OneByte(s[0]);
      NextOne(s, u as bv32);
    } else if n == 2 {
      u := TwoBytes(s[0], s[1]);
      NextTwo(s, u as bv32);
    } else {
      u := ThreeBytes(s[0], s[1], s[2]);
      NextThree(s, u as bv32);
    }
  }

  lemma OneByte(a: bv8) returns (u: bv16)
    requires 0 < a < 0x80
    ensures EncodeUnit(u) == [a] && (a & 0xff) as bv32 == u as bv32 && !IsContinuation(a)
  {
    u := a as bv16;
  }

  lemma TwoBytes(a: bv8, b: bv8) returns (u: bv16)
    requires IsContinuation(b) && ((a == 0xc0 && b == 0x80) || 0xc2 <= a <= 0xdf)
    ensures EncodeUnit(u) == [a, b] && ShiftIn((a & 0x1f) as bv32, b) == u as bv32 && !IsContinuation(a)
  {
    u := ShiftIn((a & 0x1f) as bv32, b) as bv16;
  }

  function Join(a: bv8, b: bv8, c: bv8): bv16 {
    (((a & 0x0f) as bv16) << 12) | (((b & 0x3f) as bv16) << 6) | ((c & 0x3f) as bv16)
  }

  lemma JoinCode(a: bv8, b: bv8, c: bv8)
    ensures ShiftIn(ShiftIn((a & 0x0f) as bv32, b), c) == Join(a, b, c) as bv32
  {
  }

  /** Three bytes hold a unit above 0x7ff whose pieces they are. */
  lemma Joined(a: bv8, b: bv8, c: bv8) returns (u: bv16)
    requires 0x80 <= b <= 0xbf && 0x80 <= c <= 0xbf && ((a == 0xe0 && 0xa0 <= b) || 0xe1 <= a <= 0xef)
    ensures u == Join(a, b, c) > 0x7ff
    ensures ((u >> 12) as bv8) | 0xe0 == a && (((u >> 6) & 0x3f) as bv8) | 0x80 == b && ((u & 0x3f) as bv8) | 0x80 == c
  {
    u := (((a & 0x0f) as bv16) << 12) | (((b & 0x3f) as bv16) << 6) | ((c & 0x3f) as bv16);
  }

  lemma EncodeLarge(u: bv16, a: bv8, b: bv8, c: bv8)
    requires u > 0x7ff
    requires ((u >> 12) as bv8) | 0xe0 == a && (((u >> 6) & 0x3f) as bv8) | 0x80 == b && ((u & 0x3f) as bv8) | 0x80 == c
    ensures EncodeUnit(u) == [a, b, c]
  {
  }

  lemma ThreeBytesEncode(a: bv8, b: bv8, c: bv8)
    requires 0x80 <= b <= 0xbf && 0x80 <= c <= 0xbf && ((a == 0xe0 && 0xa0 <= b) || 0xe1 <= a <= 0xef)
    ensures EncodeUnit(Join(a, b, c)) == [a, b, c]
  {
    var u := Joined(a, b, c);
    EncodeLarge(u, a, b, c);
  }

  lemma ThreeBytes(a: bv8, b: bv8, c: bv8) returns (u: bv16)
    requires 0x80 <= b <= 0xbf && 0x80 <= c <= 0xbf && ((a == 0xe0 && 0xa0 <= b) || 0xe1 <= a <= 0xef)
    ensures EncodeUnit(u) == [a, b, c] && ShiftIn(ShiftIn((a & 0x0f) as bv32, b), c) == u as bv32
  {
    u := Join(a, b, c);
    ThreeBytesEncode(a, b, c);
    JoinCode(a, b, c);
  }

  lemma DecodeStep(s: seq<bv8>, u: bv16, n: nat)
    requires s != [] && Next(s) == (u as bv32, n)
    ensures Decode(s) == [u] + Decode(s[n..])
  {
    UnitsOfUnit(u);
  }

  lemma {:induction false} EncodeDecodeCanonical(s: seq<bv8>)
    requires Canonical(s)
    ensures Encode(Decode(s)) == s
    decreases |s|
  {
    if s != [] {
      var n := CanonicalLength(s);
      EncodeDecodeCanonical(s[n..]);
      var u := CanonicalNext(s);
      DecodeStep(s, u, n);
      EncodePrepend(u, Decode(s[n..]));
      SplitAt(s, n);
    }
  }

  lemma SplitAt(s: seq<bv8>, n: nat)
    requires n <= |s|
    ensures s[..n] + s[n..] == s
  {
  }

  lemma EncodePrepend(u: bv16, us: seq<bv16>)
    ensures Encode([u] + us) == EncodeUnit(u) + Encode(us)
  {
    assert ([u] + us)[1..] == us;
  }

  /** Re-encoding a decoded string gives it back exactly when it was canonical. */
  lemma EncodeDecodeIff(s: seq<bv8>)
    ensures Encode(Decode(s)) == s <==> Canonical(s)
  {
    EncodeIsCanonical(Decode(s));
    if Canonical(s) {
      EncodeDecodeCanonical(s);
    }
  }

  // ----- the length predictor

  /** `strlen8to16` from a point where `expected` continuation bytes are still due. */
  function Count(s: seq<bv8>, expected: int): nat {
    if s == [] then 0
    else if IsContinuation(s[0]) then (if expected - 1 < 0 then 1 else 0) + Count(s[1..], expected - 1)
    else
      var e := SeqLength(s[0]) - 1;
      (if e == 3 then 2 else 1) + Count(s[1..], e)
  }

  predicate AtBoundary(s: seq<bv8>, expected: int) {
    s == [] || !IsContinuation(s[0]) || expected <= 0
  }

  lemma {:induction false} CountAtBoundary(s: seq<bv8>, expected: int)
    requires AtBoundary(s, expected)
    ensures Count(s, expected) == Count(s, 0)
  {
    if s != [] && IsContinuation(s[0]) {
      CountAtBoundary(s[1..], expected - 1);
      CountAtBoundary(s[1..], -1);
    }
  }

  /** The continuation bytes a sequence takes are the ones the predictor does not count. */
  lemma {:induction false} CountContinue(s: seq<bv8>, n: nat, i: nat, code: bv32)
    requires i <= n && i <= |s|
    ensures var j := Continue(s, n, i, code).1;
            Count(s[i..], n - i) == Count(s[j..], n - j) && AtBoundary(s[j..], n - j)
    decreases n - i
  {
    if i < n && i < |s| && IsContinuation(s[i]) {
      assert s[i..][1..] == s[i + 1..];
      CountContinue(s, n, i + 1, ShiftIn(code, s[i]));
    }
  }

  lemma CountLead(s: seq<bv8>, code: bv32)
    requires s != [] && !IsContinuation(s[0])
    ensures var n := Continue(s, SeqLength(s[0]), 1, code).1;
            Count(s, 0) == (if IsQuadLead(s[0]) then 2 else 1) + Count(s[n..], 0)
  {
    var m := SeqLength(s[0]);
    var n := Continue(s, m, 1, code).1;
    CountContinue(s, m, 1, code);
    CountAtBoundary(s[n..], m - n);
  }

  /** The predictor counts one unit for each sequence the decoder takes, two for a four-byte lead. */
  lemma CountNext(s: seq<bv8>)
    requires s != []
    ensures Count(s, 0) == (if IsQuadLead(s[0]) then 2 else 1) + Count(s[Next(s).1..], 0)
  {
    if IsContinuation(s[0]) {
      CountAtBoundary(s[1..], -1);
    } else {
      CountLead(s, (s[0] & LeaderMask(SeqLength(s[0]))) as bv32);
    }
  }

  predicate IsQuadLead(b: bv8) {
    b >= 0xf0
  }

  /** The value of a complete four-byte sequence. */
  function QuadValue(a: bv8, b: bv8, c: bv8, d: bv8): bv32 {
    (((a & 0x07) as bv32) << 18) | (((b & 0x3f) as bv32) << 12) | (((c & 0x3f) as bv32) << 6) | ((d & 0x3f) as bv32)
  }

  /** A four-byte lead that gives one unit only: cut short, or outside the supplementary planes. */
  predicate QuadFallsShort(s: seq<bv8>) {
    && s != [] && IsQuadLead(s[0])
    && (|s| < 4
        || !IsContinuation(s[1]) || !IsContinuation(s[2]) || !IsContinuation(s[3])
        || QuadValue(s[0], s[1], s[2], s[3]) <= 0xffff
        || QuadValue(s[0], s[1], s[2], s[3]) > UPPER_LIMIT)
  }

  /** How many sequences the decoder meets are such leads. */
  function Shortfall(s: seq<bv8>): nat {
    if s == [] then 0 else (if QuadFallsShort(s) then 1 else 0) + Shortfall(s[Next(s).1..])
  }

  lemma QuadBits(a: bv8, b: bv8, c: bv8, d: bv8)
    ensures ShiftIn(ShiftIn(ShiftIn((a & 0x07) as bv32, b), c), d) == QuadValue(a, b, c, d)
  {
  }

  lemma ShortCodes(a: bv8, b: bv8, c: bv8)
    ensures (a & 0xff) as bv32 <= 0xffff
    ensures ShiftIn((a & 0x1f) as bv32, b) <= 0xffff
    ensures ShiftIn(ShiftIn((a & 0x0f) as bv32, b), c) <= 0xffff
  {
  }

  lemma UnitsLength(code: bv32)
    ensures |Units(code)| == if 0xffff < code <= UPPER_LIMIT then 2 else 1
  {
  }

  lemma SurrogateBits(v: bv32)
    requires v <= 0xfffff
    ensures var h, l := 0xd800 | ((v >> 10) as bv16), 0xdc00 | ((v & 0x3ff) as bv16);
            h & 0xfc00 == 0xd800 && l & 0xfc00 == 0xdc00 && ((((h & 0x3ff) as bv32) << 10) | ((l & 0x3ff) as bv32)) == v
  {
  }

  /** The two units written for a supplementary code are its surrogate pair (section 2.1 of RFC 2781). */
  lemma SurrogatePair(code: bv32)
    requires 0xffff < code <= UPPER_LIMIT
    ensures var us := Units(code);
            && |us| == 2 && us[0] & 0xfc00 == 0xd800 && us[1] & 0xfc00 == 0xdc00
            && ((((us[0] & 0x3ff) as bv32) << 10) | ((us[1] & 0x3ff) as bv32)) == code - 0x10000
  {
    SurrogateBits(code - 0x10000);
  }

  // ----- which code a sequence stands for

  function DoubleValue(a: bv8, b: bv8): bv32 {
    (((a & 0x1f) as bv32) << 6) | ((b & 0x3f) as bv32)
  }

  function TripleValue(a: bv8, b: bv8, c: bv8): bv32 {
    (((a & 0x0f) as bv32) << 12) | (((b & 0x3f) as bv32) << 6) | ((c & 0x3f) as bv32)
  }

  /** The value of a complete sequence of `n` bytes, from the bit layout of its bytes (section 3 of RFC 3629). */
  function SequenceValue(s: seq<bv8>, n: nat): bv32
    requires 1 <= n <= |s| && n <= 4
  {
    if n == 1 then s[0] as bv32
    else if n == 2 then DoubleValue(s[0], s[1])
    else if n == 3 then TripleValue(s[0], s[1], s[2])
    else QuadValue(s[0], s[1], s[2], s[3])
  }

  /** The sequence at the front has all the bytes its lead announces. */
  predicate Complete(s: seq<bv8>) {
    && s != [] && !IsContinuation(s[0]) && SeqLength(s[0]) <= |s|
    && forall j | 1 <= j < SeqLength(s[0]) :: IsContinuation(s[j])
  }

  /** The sequence at the front is cut short after `k` bytes, or is a stray continuation byte. */
  predicate CutShort(s: seq<bv8>, k: nat) {
    && 1 <= k <= |s|
    && if IsContinuation(s[0]) then k == 1
       else k < SeqLength(s[0]) && (forall j | 1 <= j < k :: IsContinuation(s[j]))
            && (k < |s| ==> !IsContinuation(s[k]))
  }

  lemma TripleBits(a: bv8, b: bv8, c: bv8)
    ensures ShiftIn((a & 0x1f) as bv32, b) == DoubleValue(a, b)
    ensures ShiftIn(ShiftIn((a & 0x0f) as bv32, b), c) == TripleValue(a, b, c)
    ensures (a & 0xff) as bv32 == a as bv32
  {
  }

  /** A complete sequence gives the value its bits spell. */
  lemma CompleteNext(s: seq<bv8>)
    requires Complete(s)
    ensures Next(s) == (SequenceValue(s, SeqLength(s[0])), SeqLength(s[0]))
  {
    var n := SeqLength(s[0]);
    var b1, b2 := if |s| > 1 then s[1] else 0, if |s| > 2 then s[2] else 0;
    var b3 := if |s| > 3 then s[3] else 0;
    TripleBits(s[0], b1, b2);
    QuadBits(s[0], b1, b2, b3);
    UnrollContinue(s, n, (s[0] & LeaderMask(n)) as bv32, b1, b2, b3);
  }

  /** Any other sequence gives the replacement character and takes the bytes up to where it breaks. */
  lemma CutShortNext(s: seq<bv8>, k: nat)
    requires CutShort(s, k)
    ensures Next(s) == (REPLACEMENT as bv32, k)
  {
    if !IsContinuation(s[0]) {
      var n := SeqLength(s[0]);
      UnrollContinue(s, n, (s[0] & LeaderMask(n)) as bv32, if |s| > 1 then s[1] else 0, if |s| > 2 then s[2] else 0,
                     if |s| > 3 then s[3] else 0);
    }
  }

  /** Every string starts with a complete sequence or with one cut short, and not with both. */
  lemma CompleteOrCut(s: seq<bv8>)
    requires s != []
    ensures Complete(s) <==> forall k :: !CutShort(s, k)
  {
    if !Complete(s) {
      CutShortIs(s, Next(s).1);
    } else if k: nat :| CutShort(s, k) {
      CutShortNext(s, k);
      CompleteNext(s);
      assert false;
    }
  }

  lemma CutShortIs(s: seq<bv8>, k: nat)
    requires s != [] && !Complete(s) && k == Next(s).1
    ensures CutShort(s, k)
  {
    if !IsContinuation(s[0]) {
      var n := SeqLength(s[0]);
      ContinueStops(s, n, 1, (s[0] & LeaderMask(n)) as bv32);
    }
  }

  lemma {:induction false} ContinueStops(s: seq<bv8>, n: nat, i: nat, code: bv32)
    requires 1 <= i <= n && i <= |s|
    ensures var k := Continue(s, n, i, code).1;
            && (forall j | i <= j < k :: IsContinuation(s[j]))
            && (k < n && k < |s| ==> !IsContinuation(s[k]))
    decreases n - i
  {
    if i < n && i < |s| && IsContinuation(s[i]) {
      ContinueStops(s, n, i + 1, ShiftIn(code, s[i]));
    }
  }

  /** The units `us` are the UTF-16 form of `code` (section 2.1 of RFC 2781). */
  predicate SpellsUtf16(us: seq<bv16>, code: bv32) {
    if code <= 0xffff then us == [code as bv16]
    else && |us| == 2 && us[0] & 0xfc00 == 0xd800 && us[1] & 0xfc00 == 0xdc00
         && code - 0x10000 == (((us[0] & 0x3ff) as bv32) << 10) | ((us[1] & 0x3ff) as bv32)
  }

  lemma UnitsSpell(code: bv32)
    requires code <= UPPER_LIMIT
    ensures SpellsUtf16(Units(code), code)
  {
    if code > 0xffff {
      SurrogatePair(code);
    }
  }

  /** A complete sequence decodes to the UTF-16 form of its value, or to the replacement character when the value is
      past the limit; decoding goes on behind it. */
  lemma CompleteDecodes(s: seq<bv8>, n: nat, value: bv32) returns (us: seq<bv16>)
    requires Complete(s) && n == SeqLength(s[0]) && value == SequenceValue(s, n)
    ensures Decode(s) == us + Decode(s[n..])
    ensures if value <= UPPER_LIMIT then SpellsUtf16(us, value) else us == [REPLACEMENT]
  {
    CompleteNext(s);
    us := Units(value);
    DecodeOnce(s, value, n, s[n..]);
    if value <= UPPER_LIMIT {
      UnitsSpell(value);
    }
  }

  /** A stray continuation byte or a sequence cut short decodes to one replacement character; decoding goes on with the
      byte that broke it. */
  lemma CutShortDecodes(s: seq<bv8>, k: nat)
    requires CutShort(s, k)
    ensures Decode(s) == [0xfffd] + Decode(s[k..])
  {
    CutShortNext(s, k);
    UnitsOfUnit(REPLACEMENT);
    DecodeOnce(s, REPLACEMENT as bv32, k, s[k..]);
  }

  // ----- standard UTF-8 text

  /** A Unicode scalar value. */
  predicate Scalar(c: bv32) {
    c <= 0x10ffff && !(0xd800 <= c <= 0xdfff)
  }

  /** What becomes of it: the last two codes of the last plane turn into the replacement character. */
  function Seen(c: bv32): bv32 {
    if c <= 0x10fffd then c else 0xfffd
  }

  /** The UTF-8 form of a code (section 3 of RFC 3629). */
  function Utf8(c: bv32): (s: seq<bv8>)
    requires c <= 0x1fffff
    ensures 1 <= |s| <= 4
  {
    if c < 0x80 then [(c & 0x7f) as bv8]
    else if c < 0x800 then [0xc0 | (((c >> 6) & 0x1f) as bv8), 0x80 | ((c & 0x3f) as bv8)]
    else if c < 0x10000 then
      [0xe0 | (((c >> 12) & 0x0f) as bv8), 0x80 | (((c >> 6) & 0x3f) as bv8), 0x80 | ((c & 0x3f) as bv8)]
    else
      [0xf0 | (((c >> 18) & 0x07) as bv8), 0x80 | (((c >> 12) & 0x3f) as bv8), 0x80 | (((c >> 6) & 0x3f) as bv8),
       0x80 | ((c & 0x3f) as bv8)]
  }

  function Utf8Text(cs: seq<bv32>): seq<bv8>
    requires forall i | 0 <= i < |cs| :: Scalar(cs[i])
  {
    if cs == [] then [] else assert Scalar(cs[0]); Utf8(cs[0]) + Utf8Text(cs[1..])
  }

  /** The first code of UTF-16 text (section 2.2 of RFC 2781) and its width; an unpaired surrogate stands for itself. */
  function FirstCode(us: seq<bv16>): (r: (bv32, nat))
    requires us != []
    ensures 1 <= r.1 <= |us|
  {
    if us[0] & 0xfc00 == 0xd800 && |us| > 1 && us[1] & 0xfc00 == 0xdc00 then
      (0x10000 + ((((us[0] & 0x3ff) as bv32) << 10) | ((us[1] & 0x3ff) as bv32)), 2)
    else (us[0] as bv32, 1)
  }

  function FromUtf16(us: seq<bv16>): seq<bv32> {
    if us == [] then [] else [FirstCode(us).0] + FromUtf16(us[FirstCode(us).1..])
  }

  lemma Utf8Bits2(c: bv32)
    requires 0x80 <= c < 0x800
    ensures var a, b := 0xc0 | (((c >> 6) & 0x1f) as bv8), 0x80 | ((c & 0x3f) as bv8);
            0xc0 <= a < 0xe0 && IsContinuation(b) && DoubleValue(a, b) == c
  {
  }

  lemma Utf8Bits3(c: bv32)
    requires 0x800 <= c < 0x10000
    ensures var a, b, d := 0xe0 | (((c >> 12) & 0x0f) as bv8), 0x80 | (((c >> 6) & 0x3f) as bv8),
                           0x80 | ((c & 0x3f) as bv8);
            0xe0 <= a < 0xf0 && IsContinuation(b) && IsContinuation(d) && TripleValue(a, b, d) == c
  {
  }

  lemma Utf8Bits4(c: bv32)
    requires 0x10000 <= c <= 0x1fffff
    ensures var a, b := 0xf0 | (((c >> 18) & 0x07) as bv8), 0x80 | (((c >> 12) & 0x3f) as bv8);
            var d, e := 0x80 | (((c >> 6) & 0x3f) as bv8), 0x80 | ((c & 0x3f) as bv8);
            a >= 0xf0 && IsContinuation(b) && IsContinuation(d) && IsContinuation(e) && QuadValue(a, b, d, e) == c
  {
  }

  /** A sequence whose bytes are of the right kinds is complete. */
  lemma KindsComplete(s: seq<bv8>, n: nat)
    requires 1 <= n <= 4 && n <= |s| && !IsContinuation(s[0]) && SeqLength(s[0]) == n
    requires (n > 1 ==> IsContinuation(s[1])) && (n > 2 ==> IsContinuation(s[2])) && (n > 3 ==> IsContinuation(s[3]))
    ensures Complete(s)
  {
    forall j | 1 <= j < n
      ensures IsContinuation(s[j])
    {
      assert j == 1 || j == 2 || j == 3;
    }
  }

  lemma OneComplete(c: bv32, s: seq<bv8>)
    requires c < 0x80 && s != [] && s[0] == (c & 0x7f) as bv8
    ensures Complete(s) && SeqLength(s[0]) == 1 && SequenceValue(s, 1) == c
  {
    KindsComplete(s, 1);
  }

  lemma TwoComplete(c: bv32, s: seq<bv8>)
    requires 0x80 <= c < 0x800 && |s| > 1
    requires s[0] == 0xc0 | (((c >> 6) & 0x1f) as bv8) && s[1] == 0x80 | ((c & 0x3f) as bv8)
    ensures Complete(s) && SeqLength(s[0]) == 2 && SequenceValue(s, 2) == c
  {
    Utf8Bits2(c);
    KindsComplete(s, 2);
  }

  lemma ThreeComplete(c: bv32, s: seq<bv8>)
    requires 0x800 <= c < 0x10000 && |s| > 2 && s[0] == 0xe0 | (((c >> 12) & 0x0f) as bv8)
    requires s[1] == 0x80 | (((c >> 6) & 0x3f) as bv8) && s[2] == 0x80 | ((c & 0x3f) as bv8)
    ensures Complete(s) && SeqLength(s[0]) == 3 && SequenceValue(s, 3) == c
  {
    Utf8Bits3(c);
    KindsComplete(s, 3);
  }

  lemma FourComplete(c: bv32, s: seq<bv8>)
    requires 0x10000 <= c <= 0x1fffff && |s| > 3
    requires s[0] == 0xf0 | (((c >> 18) & 0x07) as bv8) && s[1] == 0x80 | (((c >> 12) & 0x3f) as bv8)
    requires s[2] == 0x80 | (((c >> 6) & 0x3f) as bv8) && s[3] == 0x80 | ((c & 0x3f) as bv8)
    ensures Complete(s) && SeqLength(s[0]) == 4 && SequenceValue(s, 4) == c
  {
    Utf8Bits4(c);
    KindsComplete(s, 4);
  }

  lemma Utf8Complete(c: bv32, rest: seq<bv8>, s: seq<bv8>)
    requires c <= 0x1fffff && s == Utf8(c) + rest
    ensures Complete(s) && SeqLength(s[0]) == |Utf8(c)| && SequenceValue(s, |Utf8(c)|) == c
  {
    if c < 0x80 {
      OneComplete(c, s);
    } else if c < 0x800 {
      TwoComplete(c, s);
    } else if c < 0x10000 {
      ThreeComplete(c, s);
    } else {
      FourComplete(c, s);
    }
  }

  lemma PairFirst(us: seq<bv16>, code: bv32, all: seq<bv16>)
    requires Scalar(code) && SpellsUtf16(us, code) && us <= all
    ensures all != [] && FirstCode(all) == (code, |us|)
  {
    if code <= 0xffff {
      NoSurrogate(code);
    } else {
      assert all[0] == us[0] && all[1] == us[1];
    }
  }

  lemma ReadFirst(all: seq<bv16>, code: bv32, n: nat, rest: seq<bv16>)
    requires all != [] && FirstCode(all) == (code, n) && n <= |all| && all[n..] == rest
    ensures FromUtf16(all) == [code] + FromUtf16(rest)
  {
  }

  lemma NoSurrogate(code: bv32)
    requires code <= 0xffff && !(0xd800 <= code <= 0xdfff)
    ensures (code as bv16) & 0xfc00 != 0xd800 && (code as bv16) as bv32 == code
  {
  }

  lemma {:induction false} TextSeen(cs: seq<bv32>)
    requires forall i | 0 <= i < |cs| :: Scalar(cs[i])
    ensures FromUtf16(Decode(Utf8Text(cs))) == seq(|cs|, i requires 0 <= i < |cs| => Seen(cs[i]))
  {
    if cs != [] {
      TextSeen(cs[1..]);
      CodeDecodes(cs[0], Utf8Text(cs[1..]));
    }
  }

  /** Text in standard UTF-8 survives, in that reading what it is decoded to as UTF-16 gives its code points back, if
      and only if it contains neither of the codes 0x10fffe and 0x10ffff. */
  lemma TextDecodesIff(cs: seq<bv32>)
    requires forall i | 0 <= i < |cs| :: Scalar(cs[i])
    ensures FromUtf16(Decode(Utf8Text(cs))) == cs <==> 0x10fffe !in cs && 0x10ffff !in cs
  {
    TextSeen(cs);
    var seen := FromUtf16(Decode(Utf8Text(cs)));
    forall i | 0 <= i < |cs|
      ensures seen[i] == cs[i] <==> cs[i] != 0x10fffe && cs[i] != 0x10ffff
    {
      LastTwo(cs[i]);
    }
  }

  lemma LastTwo(c: bv32)
    requires Scalar(c)
    ensures Seen(c) == c <==> c != 0x10fffe && c != 0x10ffff
  {
  }

  lemma CodeDecodes(c: bv32, rest: seq<bv8>)
    requires Scalar(c)
    ensures FromUtf16(Decode(Utf8(c) + rest)) == [Seen(c)] + FromUtf16(Decode(rest))
  {
    var s, n := Utf8(c) + rest, |Utf8(c)|;
    Utf8Complete(c, rest, s);
    var us := CompleteDecodes(s, n, c);
    assert s[n..] == rest && Decode(s)[|us|..] == Decode(rest);
    SeenFirst(c, us);
    PairFirst(us, Seen(c), Decode(s));
    ReadFirst(Decode(s), Seen(c), |us|, Decode(rest));
  }

  lemma SeenFirst(c: bv32, us: seq<bv16>)
    requires Scalar(c) && if c <= UPPER_LIMIT then SpellsUtf16(us, c) else us == [REPLACEMENT]
    ensures Scalar(Seen(c)) && SpellsUtf16(us, Seen(c))
  {
  }

  lemma QuadUnits(s: seq<bv8>)
    requires s != [] && IsQuadLead(s[0]) && !IsContinuation(s[0])
    ensures |Units(Next(s).0)| == if QuadFallsShort(s) then 1 else 2
  {
    var b1 := if |s| > 1 then s[1] else 0;
    var b2 := if |s| > 2 then s[2] else 0;
    var b3 := if |s| > 3 then s[3] else 0;
    UnrollContinue(s, 4, (s[0] & 0x07) as bv32, b1, b2, b3);
    var value := QuadValue(s[0], b1, b2, b3);
    QuadBits(s[0], b1, b2, b3);
    UnitsLength(value);
    UnitsLength(REPLACEMENT as bv32);
  }

  lemma ShortUnits(s: seq<bv8>)
    requires s != [] && !IsQuadLead(s[0])
    ensures Next(s).0 <= 0xffff
  {
    if !IsContinuation(s[0]) {
      var b1 := if |s| > 1 then s[1] else 0;
      var b2 := if |s| > 2 then s[2] else 0;
      ShortCodes(s[0], b1, b2);
      UnrollContinue(s, SeqLength(s[0]), (s[0] & LeaderMask(SeqLength(s[0]))) as bv32,
                     b1, b2, if |s| > 3 then s[3] else 0);
    }
  }

  lemma UnitsOfNext(s: seq<bv8>)
    requires s != []
    ensures |Units(Next(s).0)| == (if IsQuadLead(s[0]) then 2 else 1) - if QuadFallsShort(s) then 1 else 0
  {
    if IsQuadLead(s[0]) {
      QuadUnits(s);
    } else {
      ShortUnits(s);
    }
  }

  /** For every byte string, well formed or not, the predicted length exceeds the decoded length by
      exactly the number of four-byte leads that fall short. */
  lemma {:induction false} LengthPrediction(s: seq<bv8>)
    ensures Count(s, 0) == |Decode(s)| + Shortfall(s)
    decreases |s|
  {
    if s != [] {
      CountNext(s);
      UnitsOfNext(s);
      LengthPrediction(s[Next(s).1..]);
    }
  }

  /** A canonical string has no four-byte leads. */
  lemma {:induction false} CanonicalNoShortfall(s: seq<bv8>)
    requires Canonical(s)
    ensures Shortfall(s) == 0
    decreases |s|
  {
    if s != [] {
      var n := CanonicalLength(s);
      var u := CanonicalNext(s);
      CanonicalNoShortfall(s[n..]);
    }
  }

  /** A zero-terminated string as it lies in memory. */
  predicate CString(str: seq<bv8>) {
    str != [] && str[|str| - 1] == 0 && 0 !in str[..|str| - 1]
  }

  function Body(str: seq<bv8>): seq<bv8>
    requires CString(str)
  {
    str[..|str| - 1]
  }

  /** What `strndup16to8` writes is one C string, `strlen8to16` measures it exactly, and decoding it gives the
      units back. */
  lemma EncodedString(us: seq<bv16>)
    ensures var str := Encode(us) + [0];
            CString(str) && Body(str) == Encode(us) && Count(Body(str), 0) == |us| && Decode(Body(str)) == us
  {
    EncodeHasNoZero(us);
    EncodeIsCanonical(us);
    CanonicalNoShortfall(Encode(us));
    LengthPrediction(Encode(us));
    DecodeEncode(us);
    var str := Encode(us) + [0];
    assert str[..|str| - 1] == Encode(us);
  }

  // ----- strdup8to16.cpp

  /** The source's test for an extension byte. */
  method IsExtension(b: bv8) returns (yes: bool)
    ensures yes == IsContinuation(b)
  {
    yes := b & 0xc0 == 0x80;
  }

  /** `UTF8_SEQ_LENGTH`: the length looked up in a constant by the lead byte's upper half. */
  method LookUpLength(b: bv8) returns (n: nat)
    ensures 1 <= n <= 4 && (!IsContinuation(b) ==> n == SeqLength(b))
  {
    var r := (0xe5000000 as bv32 >> (((b >> 3) & 0x1e) as bv5)) & 3;
    n := if r == 0 then 1 else if r == 1 then 2 else if r == 2 then 3 else 4;
  }

  /** Nothing counts for more than two units. */
  lemma {:induction false} CountBound(s: seq<bv8>, expected: int)
    ensures Count(s, expected) <= 2 * |s|
  {
    if s != [] {
      CountBound(s[1..], if IsContinuation(s[0]) then expected - 1 else SeqLength(s[0]) - 1);
    }
  }

  /** One more, in a `size_t`: `laps` says how often it has wrapped. */
  method Increment(len: nat, sizeMax: nat, ghost laps: nat) returns (len': nat, ghost laps': nat)
    requires len <= sizeMax
    ensures len' <= sizeMax && len' + Align.Span(laps', sizeMax + 1) == len + 1 + Align.Span(laps, sizeMax + 1)
  {
    len', laps' := Wrapped(len + 1, sizeMax), if len == sizeMax then laps + 1 else laps;
  }

  lemma LapsGone(len: nat, sizeMax: nat, laps: nat)
    requires len <= sizeMax
    ensures (len + Align.Span(laps, sizeMax + 1)) % (sizeMax + 1) == len
  {
    Align.SpanIs(laps, sizeMax + 1);
    Align.QuotientIs(len + Align.Span(laps, sizeMax + 1), sizeMax + 1, laps, len);
  }

  /** The predicted length, cut to a `size_t`. */
  method Strlen8to16(str: seq<bv8>, sizeMax: nat) returns (len: nat)
    requires CString(str)
    ensures len == Count(Body(str), 0) % (sizeMax + 1)
  {
    len := 0;
    var p, expected: int := 0, 0;
    ghost var laps := 0;
    while str[p] != 0
      invariant 0 <= p <= |Body(str)| && len <= sizeMax
      invariant len + Align.Span(laps, sizeMax + 1) + Count(Body(str)[p..], expected) == Count(Body(str), 0)
      decreases |str| - p
    {
      var ic := str[p];
      assert Body(str)[p..][1..] == Body(str)[p + 1..];
      var extension := IsExtension(ic);
      if extension {
        expected := expected - 1;
        if expected < 0 {
          len, laps := Increment(len, sizeMax, laps);
        }
      } else {
        len, laps := Increment(len, sizeMax, laps);
        var n := LookUpLength(ic);
        expected := n - 1;
        if expected == 3 {
          len, laps := Increment(len, sizeMax, laps);
        }
      }
      p := p + 1;
    }
    LapsGone(len, sizeMax, laps);
  }

  /** A string that leaves half the address space to others is predicted exactly. */
  lemma PredictionFits(str: seq<bv8>, sizeMax: nat)
    requires CString(str) && 2 * |str| <= sizeMax + 1
    ensures Count(Body(str), 0) % (sizeMax + 1) == Count(Body(str), 0)
  {
    var n := Count(Body(str), 0);
    CountBound(Body(str), 0);
    Align.QuotientIs(n, sizeMax + 1, 0, n);
  }

  method GetUtf32FromUtf8(str: seq<bv8>, p: nat) returns (code: bv32, q: nat)
    requires CString(str) && p < |str|
    ensures p == |Body(str)| ==> code == 0 && q == p
    ensures p < |Body(str)| ==> q <= |Body(str)| && p <= q && Next(Body(str)[p..]) == (code, q - p)
  {
    ghost var rest := Body(str)[p..];
    var extension := IsExtension(str[p]);
    if extension {
      return REPLACEMENT as bv32, p + 1;
    }
    var seqLen := LookUpLength(str[p]);
    code := (str[p] & LeaderMask(seqLen)) as bv32;
    q := p;
    if str[p] == 0 {
      return;
    }
    code, q := ReadContinuation(str, p, seqLen, code);
  }

  method ReadContinuation(str: seq<bv8>, p: nat, seqLen: nat, lead: bv32) returns (code: bv32, q: nat)
    requires CString(str) && p < |Body(str)| && 1 <= seqLen
    ensures p < q <= |Body(str)| && Continue(Body(str)[p..], seqLen, 1, lead) == (code, q - p)
  {
    ghost var rest := Body(str)[p..];
    code, q := lead, p + 1;
    var i := 1;
    while i < seqLen
      invariant q == p + i <= |Body(str)| && i <= seqLen
      invariant Continue(rest, seqLen, 1, lead) == Continue(rest, seqLen, i, code)
    {
      if str[q] == 0 {
        return REPLACEMENT as bv32, q;
      }
      var extension := IsExtension(str[q]);
      if !extension {
        return REPLACEMENT as bv32, q;
      }
      code := ShiftIn(code, str[q]);
      i := i + 1;
      q := q + 1;
    }
  }

  method PutCode(dest: array<bv16>, d: nat, code: bv32) returns (e: nat)
    requires d + |Units(code)| <= dest.Length
    modifies dest
    ensures e == d + |Units(code)|
    ensures dest[..e] == old(dest[..d]) + Units(code) && dest[e..] == old(dest[e..])
  {
    if code <= 0xffff {
      dest[d] := code as bv16;
      e := d + 1;
    } else if code <= UPPER_LIMIT {
      dest[d] := 0xd800 | (((code - 0x10000) >> 10) as bv16);
      dest[d + 1] := 0xdc00 | (((code - 0x10000) & 0x3ff) as bv16);
      e := d + 2;
    } else {
      dest[d] := REPLACEMENT;
      e := d + 1;
    }
  }

  lemma DecodeAfter(done: seq<bv16>, body: seq<bv8>, p: nat, code: bv32, q: nat)
    requires p < q <= |body| && Next(body[p..]) == (code, q - p)
    ensures done + Decode(body[p..]) == done + Units(code) + Decode(body[q..])
  {
    assert body[p..][q - p..] == body[q..];
    DecodeOnce(body[p..], code, q - p, body[q..]);
    Regroup(done, Units(code), Decode(body[q..]));
  }

  lemma Regroup(a: seq<bv16>, b: seq<bv16>, c: seq<bv16>)
    ensures a + (b + c) == a + b + c
  {
  }

  method Strcpy8to16(dest: array<bv16>, str: seq<bv8>) returns (outLen: nat)
    requires CString(str) && |Decode(Body(str))| <= dest.Length
    modifies dest
    ensures outLen == |Decode(Body(str))|
    ensures dest[..outLen] == Decode(Body(str)) && dest[outLen..] == old(dest[outLen..])
  {
    ghost var body, units := Body(str), Decode(Body(str));
    var p := 0;
    outLen := 0;
    assert body[p..] == body;
    while str[p] != 0
      invariant p <= |body| && outLen <= dest.Length
      invariant dest[..outLen] + Decode(body[p..]) == units
      invariant dest[outLen..] == old(dest[outLen..])
      decreases |str| - p
    {
      var ret, q := GetUtf32FromUtf8(str, p);
      DecodeAfter(dest[..outLen], body, p, ret, q);
      outLen := PutCode(dest, outLen, ret);
      p := q;
    }
  }

  lemma HalfTheSizes(len: nat, sizeMax: nat)
    ensures len != 0 && sizeMax / len < 2 <==> 2 * len > sizeMax
  {
  }

  /** The buffer sized by `strlen8to16` is never exceeded, however malformed the string. No object is larger than half
      the address space. The allocation is not tested: when it fails, the first unit is written through null. */
  method Strdup8to16(s: Option<seq<bv8>>, sizeMax: nat, allocates: bool)
    returns (ret: array?<bv16>, outLen: nat, faults: bool)
    requires s.Some? ==> CString(s.value) && 2 * |s.value| <= sizeMax + 1
    ensures ret == null <==> s.None? || 2 * Count(Body(s.value), 0) > sizeMax || !allocates
    ensures faults <==> s.Some? && 2 * Count(Body(s.value), 0) <= sizeMax && !allocates && Decode(Body(s.value)) != []
    ensures ret != null ==> fresh(ret) && outLen == |Decode(Body(s.value))| <= ret.Length
    ensures ret != null ==> ret[..outLen] == Decode(Body(s.value)) && ret.Length == outLen + Shortfall(Body(s.value))
  {
    ret, outLen, faults := null, 0, false;
    if s.None? {
      return;
    }
    var len := Strlen8to16(s.value, sizeMax);
    PredictionFits(s.value, sizeMax);
    HalfTheSizes(len, sizeMax);
    if len != 0 && sizeMax / len < 2 {
      return;
    }
    if !allocates {
      faults := s.value[0] != 0;
      return;
    }
    LengthPrediction(Body(s.value));
    ret := new bv16[len];
    outLen := Strcpy8to16(ret, s.value);
  }

  // ----- strdup16to8.cpp

  /** The encoded length, held at `sizeMax - 1` where it cannot be counted: both loops of `strnlen16to8`. */
  method Strnlen16to8(us: seq<bv16>, sizeMax: nat) returns (utf8Len: nat)
    requires |us| <= sizeMax && 65535 <= sizeMax
    ensures utf8Len == if |Encode(us)| < sizeMax then |Encode(us)| else sizeMax - 1
  {
    utf8Len := 0;
    var i := 0;
    if |us| < (sizeMax - 1) / 3 {
      while i < |us|
        invariant i <= |us|
        invariant utf8Len + |Encode(us[i..])| == |Encode(us)| && utf8Len <= 3 * i
      {
        var uic := us[i];
        assert us[i..][1..] == us[i + 1..];
        if uic > 0x07ff {
          utf8Len := utf8Len + 3;
        } else if uic > 0x7f || uic == 0 {
          utf8Len := utf8Len + 2;
        } else {
          utf8Len := utf8Len + 1;
        }
        i := i + 1;
      }
      return;
    }
    while i < |us|
      invariant i <= |us|
      invariant utf8Len + |Encode(us[i..])| == |Encode(us)| && utf8Len <= sizeMax
    {
      var uic, utf8Cur := us[i], utf8Len;
      assert us[i..][1..] == us[i + 1..];
      if uic > 0x07ff {
        utf8Len := Wrapped(utf8Len + 3, sizeMax);
      } else if uic > 0x7f || uic == 0 {
        utf8Len := Wrapped(utf8Len + 2, sizeMax);
      } else {
        utf8Len := Wrapped(utf8Len + 1, sizeMax);
      }
      i := i + 1;
      if utf8Len < utf8Cur {
        return sizeMax - 1;
      }
    }
    if utf8Len == sizeMax {
      utf8Len := sizeMax - 1;
    }
  }

  /** A `size_t` sum just past the maximum. */
  function Wrapped(x: nat, sizeMax: nat): nat {
    if x <= sizeMax then x else x - (sizeMax + 1)
  }

  method PutUnit(dst: array<bv8>, d: nat, uic: bv16) returns (e: nat)
    requires d + |EncodeUnit(uic)| <= dst.Length
    modifies dst
    ensures e == d + |EncodeUnit(uic)|
    ensures dst[..e] == old(dst[..d]) + EncodeUnit(uic) && dst[e..] == old(dst[e..])
  {
    if uic > 0x07ff {
      dst[d] := ((uic >> 12) as bv8) | 0xe0;
      dst[d + 1] := (((uic >> 6) & 0x3f) as bv8) | 0x80;
      dst[d + 2] := ((uic & 0x3f) as bv8) | 0x80;
      e := d + 3;
    } else if uic > 0x7f || uic == 0 {
      dst[d] := ((uic >> 6) as bv8) | 0xc0;
      dst[d + 1] := ((uic & 0x3f) as bv8) | 0x80;
      e := d + 2;
    } else {
      dst[d] := uic as bv8;
      e := d + 1;
    }
  }

  lemma EncodeAfter(done: seq<bv8>, us: seq<bv16>, i: nat)
    requires i < |us|
    ensures done + Encode(us[i..]) == done + EncodeUnit(us[i]) + Encode(us[i + 1..])
  {
    assert us[i..][1..] == us[i + 1..];
  }

  method Strncpy16to8(dst: array<bv8>, us: seq<bv16>)
    requires |Encode(us)| < dst.Length
    modifies dst
    ensures var n := |Encode(us)| + 1;
            dst[..n] == Encode(us) + [0] && dst[n..] == old(dst[n..])
  {
    ghost var bytes := Encode(us);
    var i: nat, d: nat := 0, 0;
    assert us[i..] == us;
    while i < |us|
      invariant i <= |us| && d < dst.Length
      invariant dst[..d] + Encode(us[i..]) == bytes
      invariant dst[d..] == old(dst[d..])
    {
      EncodeAfter(dst[..d], us, i);
      d := PutUnit(dst, d, us[i]);
      i := i + 1;
    }
    dst[d] := 0;
  }

  method Strndup16to8(s: Option<seq<bv16>>, sizeMax: nat, allocates: bool) returns (ret: array?<bv8>)
    requires s.Some? ==> |s.value| <= sizeMax && 65535 <= sizeMax
    ensures ret == null <==> s.None? || |Encode(s.value)| >= sizeMax - 1 || !allocates
    ensures ret != null ==> fresh(ret) && ret[..] == Encode(s.value) + [0]
  {
    if s.None? {
      return null;
    }
    var len := Strnlen16to8(s.value, sizeMax);
    if len >= sizeMax - 1 || !allocates {
      return null;
    }
    ret := new bv8[len + 1];
    Strncpy16to8(ret, s.value);
  }
}
