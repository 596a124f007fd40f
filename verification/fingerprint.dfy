/**
 The finding fingerprint: FNV-1a, 64 bits wide, over the rule and the whitespace-collapsed snippet,
 written as sixteen hexadecimal digits. The constants are those of the FNV draft (draft-eastlake-fnv).
 */
module Fingerprints {
  import opened Text

  const MODULUS: int := 0x1_0000_0000_0000_0000
  const OFFSET_BASIS: int := 0xcbf2_9ce4_8422_2325
  const PRIME: int := 0x0000_0100_0000_01b3

  /** The inverse of `PRIME` modulo 2^64, which exists because `PRIME` is odd. */
  const PRIME_INVERSE: int := 0xce96_5057_aff6_957b

  type U64 = h: int | 0 <= h < MODULUS

  // ---- Exclusive or, bit by bit ----

  function Pow2(k: nat): nat
  {
    if k == 0 then 1 else 2 * Pow2(k - 1)
  }

  /** The exclusive or of the low `k` bits. */
  function XorBits(a: nat, b: nat, k: nat): nat
    decreases k, a
  {
    if k == 0 then 0 else 2 * XorBits(a / 2, b / 2, k - 1) + (a % 2 + b % 2) % 2
  }

  lemma {:induction false} XorBitsBelow(a: nat, b: nat, k: nat)
    ensures XorBits(a, b, k) < Pow2(k)
    decreases k
  {
    if k > 0 { XorBitsBelow(a / 2, b / 2, k - 1); }
  }

  lemma {:induction false} XorBitsSymmetric(a: nat, b: nat, k: nat)
    ensures XorBits(a, b, k) == XorBits(b, a, k)
    decreases k
  {
    if k > 0 { XorBitsSymmetric(a / 2, b / 2, k - 1); }
  }

  /** Exclusive or undoes itself. */
  lemma {:induction false} XorBitsUndone(a: nat, b: nat, k: nat)
    requires a < Pow2(k)
    ensures XorBits(XorBits(a, b, k), b, k) == a
    decreases k
  {
    if k > 0 {
      var x := XorBits(a, b, k);
      assert x / 2 == XorBits(a / 2, b / 2, k - 1);
      assert x % 2 == (a % 2 + b % 2) % 2;
      XorBitsUndone(a / 2, b / 2, k - 1);
    }
  }

  lemma Pow2Of64()
    ensures Pow2(64) == MODULUS
  {
    assert Pow2(8) == 0x100;
    assert Pow2(16) == 0x1_0000;
    assert Pow2(24) == 0x100_0000;
    assert Pow2(32) == 0x1_0000_0000;
    assert Pow2(40) == 0x100_0000_0000;
    assert Pow2(48) == 0x1_0000_0000_0000;
    assert Pow2(56) == 0x100_0000_0000_0000;
  }

  lemma {:induction false} XorBitsZero(a: nat, k: nat)
    requires a < Pow2(k)
    ensures XorBits(a, 0, k) == a
    decreases k
  {
    if k > 0 { XorBitsZero(a / 2, k - 1); }
  }

  // ---- The hash ----

  /** `h ^ b as u64`. */
  function XorByte(h: U64, b: Byte): U64
  {
    XorBitsBelow(h, b, 64);
    Pow2Of64();
    XorBits(h, b, 64)
  }

  /** `wrapping_mul` by the prime. */
  function MulPrime(h: U64): U64
  {
    h * PRIME % MODULUS
  }

  function Step(h: U64, b: Byte): U64
  {
    MulPrime(XorByte(h, b))
  }

  function Fold(h: U64, bytes: seq<Byte>): U64
    decreases |bytes|
  {
    if bytes == [] then h else Fold(Step(h, bytes[0]), bytes[1..])
  }

  function Fnv(bytes: seq<Byte>): U64
  {
    Fold(OFFSET_BASIS, bytes)
  }

  /** `fnv1a`. */
  method Fnv1a(bytes: seq<Byte>) returns (h: U64)
    ensures h == Fnv(bytes)
  {
    hide MulPrime, XorByte;
    h := OFFSET_BASIS;
    for i := 0 to |bytes|
      invariant Fold(h, bytes[i..]) == Fnv(bytes)
    {
      assert bytes[i..][1..] == bytes[i + 1..];
      h := XorByte(h, bytes[i]);
      h := MulPrime(h);
    }
  }

  lemma MulPrimeUndone(h: U64)
    ensures MulPrime(h) * PRIME_INVERSE % MODULUS == h
  {
    var q := h * PRIME / MODULUS;
    var k := PRIME * PRIME_INVERSE / MODULUS;
    assert PRIME * PRIME_INVERSE == k * MODULUS + 1;
    assert MulPrime(h) == h * PRIME - q * MODULUS;
    assert MulPrime(h) * PRIME_INVERSE == h + (h * k - q * PRIME_INVERSE) * MODULUS;
  }

  lemma XorByteInjective(h: U64, h': U64, b: Byte, b': Byte)
    ensures XorByte(h, b) == XorByte(h', b) ==> h == h'
    ensures XorByte(h, b) == XorByte(h, b') ==> b == b'
  {
    Pow2Of64();
    XorBitsUndone(h, b, 64);
    XorBitsUndone(h', b, 64);
    XorBitsSymmetric(h, b, 64);
    XorBitsSymmetric(h, b', 64);
    XorBitsUndone(b, h, 64);
    XorBitsUndone(b', h, 64);
  }

  /** One step loses nothing: it is injective in the state, and in the byte. */
  lemma StepInjective(h: U64, h': U64, b: Byte, b': Byte)
    ensures Step(h, b) == Step(h', b) ==> h == h'
    ensures Step(h, b) == Step(h, b') ==> b == b'
  {
    MulPrimeUndone(XorByte(h, b));
    MulPrimeUndone(XorByte(h', b));
    MulPrimeUndone(XorByte(h, b'));
    hide XorByte, MulPrime;
    XorByteInjective(h, h', b, b');
  }

  lemma {:induction false} FoldInjective(h: U64, h': U64, bytes: seq<Byte>)
    requires Fold(h, bytes) == Fold(h', bytes)
    ensures h == h'
    decreases |bytes|
  {
    hide Step;
    if bytes != [] {
      FoldInjective(Step(h, bytes[0]), Step(h', bytes[0]), bytes[1..]);
      StepInjective(h, h', bytes[0], bytes[0]);
    }
  }

  lemma {:induction false} FoldConcat(h: U64, a: seq<Byte>, b: seq<Byte>)
    ensures Fold(h, a + b) == Fold(Fold(h, a), b)
    decreases |a|
  {
    hide Step;
    if a == [] {
      assert a + b == b;
    } else {
      assert (a + b)[1..] == a[1..] + b;
      FoldConcat(Step(h, a[0]), a[1..], b);
    }
  }

  /** Two inputs of one length that differ in exactly one byte never collide. */
  lemma OneByteNeverCollides(before: seq<Byte>, b: Byte, b': Byte, after: seq<Byte>)
    requires b != b'
    ensures Fnv(before + [b] + after) != Fnv(before + [b'] + after)
  {
    hide Step;
    var h := Fold(OFFSET_BASIS, before);
    FoldConcat(OFFSET_BASIS, before + [b], after);
    FoldConcat(OFFSET_BASIS, before, [b]);
    FoldConcat(OFFSET_BASIS, before + [b'], after);
    FoldConcat(OFFSET_BASIS, before, [b']);
    assert Fold(h, [b]) == Step(h, b) && Fold(h, [b']) == Step(h, b');
    StepInjective(h, h, b, b');
    if Fold(Step(h, b), after) == Fold(Step(h, b'), after) {
      FoldInjective(Step(h, b), Step(h, b'), after);
    }
  }

  lemma XorBitsStep(a: nat, b: nat, k: nat)
    ensures XorBits(a, b, k + 1) == 2 * XorBits(a / 2, b / 2, k) + (a % 2 + b % 2) % 2
  {
  }

  type Bit = x: int | 0 <= x < 2

  datatype Octet = Octet(b7: Bit, b6: Bit, b5: Bit, b4: Bit, b3: Bit, b2: Bit, b1: Bit, b0: Bit)

  lemma Twice(q: nat, w: nat)
    ensures q * (2 * w) == 2 * (q * w)
  {
  }

  /** A byte reaches only the low bits of the state. */
  lemma {:induction false} XorHigh(q: nat, r: nat, b: nat, j: nat, k: nat)
    requires r < Pow2(j) && b < Pow2(j)
    ensures XorBits(q * Pow2(j) + r, b, j + k) == XorBits(q, 0, k) * Pow2(j) + XorBits(r, b, j)
    decreases j
  {
    if j > 0 {
      var w := Pow2(j - 1);
      var (p, high) := (q * w, XorBits(q, 0, k));
      Twice(q, w);
      Twice(high, w);
      assert Pow2(j) == 2 * w;
      XorBitsStep(2 * p + r, b, j + k - 1);
      XorBitsStep(r, b, j - 1);
      hide XorBits, Pow2;
      assert (2 * p + r) / 2 == p + r / 2 && (2 * p + r) % 2 == r % 2;
      XorHigh(q, r / 2, b / 2, j - 1, k);
      assert q * Pow2(j) + r == 2 * p + r;
    }
  }

  function High(o: Octet): nat
  {
    2 * (2 * (2 * o.b7 + o.b6) + o.b5) + o.b4
  }

  function Value(o: Octet): nat
  {
    2 * (2 * (2 * (2 * High(o) + o.b3) + o.b2) + o.b1) + o.b0
  }

  function XorBit(x: Bit, y: Bit): Bit
  {
    if x == y then 0 else 1
  }

  function XorOctet(a: Octet, b: Octet): Octet
  {
    Octet(XorBit(a.b7, b.b7), XorBit(a.b6, b.b6), XorBit(a.b5, b.b5), XorBit(a.b4, b.b4),
          XorBit(a.b3, b.b3), XorBit(a.b2, b.b2), XorBit(a.b1, b.b1), XorBit(a.b0, b.b0))
  }

  lemma HalfOf(u: nat, x: Bit)
    ensures (2 * u + x) / 2 == u && (2 * u + x) % 2 == x
  {
  }

  lemma BitStep(u: nat, v: nat, x: Bit, y: Bit, k: nat)
    ensures XorBits(2 * u + x, 2 * v + y, k + 1) == 2 * XorBits(u, v, k) + XorBit(x, y)
  {
    XorBitsStep(2 * u + x, 2 * v + y, k);
    HalfOf(u, x);
    HalfOf(v, y);
    hide XorBits;
  }

  lemma NoBits()
    ensures XorBits(0, 0, 0) == 0
  {
  }

  lemma XorHighBits(a: Octet, b: Octet)
    ensures XorBits(High(a), High(b), 4) == High(XorOctet(a, b))
  {
    hide XorBits, XorBit;
    NoBits();
    BitStep(0, 0, a.b7, b.b7, 0);
    BitStep(a.b7, b.b7, a.b6, b.b6, 1);
    BitStep(2 * a.b7 + a.b6, 2 * b.b7 + b.b6, a.b5, b.b5, 2);
    BitStep(2 * (2 * a.b7 + a.b6) + a.b5, 2 * (2 * b.b7 + b.b6) + b.b5, a.b4, b.b4, 3);
  }

  /** Two bytes, bit by bit. */
  lemma XorOctets(a: Octet, b: Octet)
    ensures XorBits(Value(a), Value(b), 8) == Value(XorOctet(a, b))
  {
    XorHighBits(a, b);
    hide XorBits, XorBit, High;
    var (u, v) := (High(a), High(b));
    BitStep(u, v, a.b3, b.b3, 4);
    BitStep(2 * u + a.b3, 2 * v + b.b3, a.b2, b.b2, 5);
    BitStep(2 * (2 * u + a.b3) + a.b2, 2 * (2 * v + b.b3) + b.b2, a.b1, b.b1, 6);
    BitStep(2 * (2 * (2 * u + a.b3) + a.b2) + a.b1, 2 * (2 * (2 * v + b.b3) + b.b2) + b.b1, a.b0, b.b0, 7);
  }

  lemma OctetBounds(o: Octet)
    ensures 0 <= Value(o) < 256
  {
  }

  /** One step on a state with its low byte `r` in bits. */
  lemma StepIs(q: nat, r: Octet, b: Octet, h: U64)
    requires q * 256 + 255 < MODULUS && (q * 256 + Value(XorOctet(r, b))) * PRIME % MODULUS == h
    ensures 0 <= Value(r) < 256 && 0 <= Value(b) < 256 && Step(q * 256 + Value(r), Value(b)) == h
  {
    OctetBounds(r);
    OctetBounds(b);
    Pow2Of64();
    assert Pow2(8) == 256 && Pow2(64) == 256 * Pow2(56);
    hide XorBits, Value, XorOctet;
    XorHigh(q, Value(r), Value(b), 8, 56);
    XorBitsZero(q, 56);
    XorOctets(r, b);
  }

  /** The published vectors for the empty input and for "a". */
  lemma PublishedVectors()
    ensures Fnv([]) == 0xcbf2_9ce4_8422_2325
    ensures Fnv([0x61]) == 0xaf63_dc4c_8601_ec8c
  {
    hide Step;
    StepIs(0xcbf2_9ce4_8422_23, Octet(0, 0, 1, 0, 0, 1, 0, 1), Octet(0, 1, 1, 0, 0, 0, 0, 1), 0xaf63_dc4c_8601_ec8c);
    assert Fold(OFFSET_BASIS, [0x61]) == Fold(Step(OFFSET_BASIS, 0x61), []);
  }

  // ---- Hexadecimal ----

  function HexChar(d: nat): char
    requires d < 16
  {
    if d < 10 then (d + 48) as char else (d + 87) as char
  }

  /** The low `k` hexadecimal digits of `n`, lower case, zero padded. */
  function HexDigits(n: nat, k: nat): (s: string)
    ensures |s| == k
    decreases k
  {
    if k == 0 then "" else HexDigits(n / 16, k - 1) + [HexChar(n % 16)]
  }

  /** `format!("{:016x}")`, exact for 64-bit values. */
  function Hex16(n: U64): string
  {
    HexDigits(n, 16)
  }

  function Pow16(k: nat): nat
  {
    if k == 0 then 1 else 16 * Pow16(k - 1)
  }

  lemma {:induction false} HexDigitsInjective(a: nat, b: nat, k: nat)
    requires a < Pow16(k) && b < Pow16(k) && HexDigits(a, k) == HexDigits(b, k)
    ensures a == b
    decreases k
  {
    if k > 0 {
      var (s, t) := (HexDigits(a, k), HexDigits(b, k));
      assert s[..k - 1] == HexDigits(a / 16, k - 1) && t[..k - 1] == HexDigits(b / 16, k - 1);
      assert s[k - 1] == HexChar(a % 16) && t[k - 1] == HexChar(b % 16);
      HexDigitsInjective(a / 16, b / 16, k - 1);
    }
  }

  lemma Hex16Injective(a: U64, b: U64)
    requires Hex16(a) == Hex16(b)
    ensures a == b
  {
    assert Pow16(8) == 0x1_0000_0000;
    assert Pow16(16) == MODULUS;
    HexDigitsInjective(a, b, 16);
  }

  // ---- The fingerprint ----

  function Fingerprint(ruleId: string, snippet: string): string
  {
    Hex16(Fnv(Utf8(ruleId + "|" + Collapse(snippet))))
  }

  /** The bytes that are hashed: the rule's, a bar, and those of the collapsed snippet. */
  lemma FingerprintBytes(ruleId: string, snippet: string)
    ensures Fingerprint(ruleId, snippet) == Hex16(Fnv(Utf8(ruleId) + [0x7C] + Utf8(Collapse(snippet))))
  {
    Utf8Concat(ruleId + "|", Collapse(snippet));
    Utf8Concat(ruleId, "|");
    assert "|"[1..] == "" && Utf8("|") == [0x7C];
  }

  /** Two rules whose ids differ in exactly one byte give one snippet different fingerprints. */
  lemma OneByteRuleEditChangesFingerprint(rule: string, rule': string, snippet: string,
                                          before: seq<Byte>, b: Byte, b': Byte, after: seq<Byte>)
    requires b != b' && Utf8(rule) == before + [b] + after && Utf8(rule') == before + [b'] + after
    ensures Fingerprint(rule, snippet) != Fingerprint(rule', snippet)
  {
    FingerprintBytes(rule, snippet);
    FingerprintBytes(rule', snippet);
    hide Fnv, Hex16, Utf8, Collapse, Fingerprint;
    var tail := after + [0x7C] + Utf8(Collapse(snippet));
    assert before + [b] + after + [0x7C] + Utf8(Collapse(snippet)) == before + [b] + tail;
    assert before + [b'] + after + [0x7C] + Utf8(Collapse(snippet)) == before + [b'] + tail;
    OneByteNeverCollides(before, b, b', tail);
    var (x, y) := (Fnv(before + [b] + tail), Fnv(before + [b'] + tail));
    if Hex16(x) == Hex16(y) { Hex16Injective(x, y); }
  }

  /** The bar is not escaped: a rule id with a bar in it can meet another rule on another snippet. */
  lemma BarIsNotEscaped()
    ensures Fingerprint("a|b", "c") == Fingerprint("a", "b|c")
  {
    WordsOfWord("c", "");
    WordsOfWord("b|c", "");
    assert "c" + "" == "c" && "b|c" + "" == "b|c";
    hide Fnv, Hex16, Utf8, Words;
    assert Collapse("c") == "c" && Collapse("b|c") == "b|c";
    assert "a|b" + "|" + "c" == "a" + "|" + "b|c";
  }

  lemma HexDigitsStep(n: nat, k: nat)
    ensures HexDigits(n, k + 1) == HexDigits(n / 16, k) + [HexChar(n % 16)]
  {
  }

  lemma HexHigh()
    ensures HexDigits(0x1234567, 8) == "01234567"
  {
    hide HexDigits;
    assert HexDigits(0, 0) == "" by { assert |HexDigits(0, 0)| == 0; }
    HexDigitsStep(0x0, 0);
    HexDigitsStep(0x1, 1);
    HexDigitsStep(0x12, 2);
    HexDigitsStep(0x123, 3);
    HexDigitsStep(0x1234, 4);
    HexDigitsStep(0x12345, 5);
    HexDigitsStep(0x123456, 6);
    HexDigitsStep(0x1234567, 7);
  }

  /** The sixteen digits, from the most significant on, are those of the value, in small letters. */
  lemma HexVector()
    ensures Hex16(0x0123_4567_89ab_cdef) == "0123456789abcdef"
  {
    HexHigh();
    hide HexDigits;
    HexDigitsStep(0x12345678, 8);
    HexDigitsStep(0x123456789, 9);
    HexDigitsStep(0x123456789a, 10);
    HexDigitsStep(0x123456789ab, 11);
    HexDigitsStep(0x123456789abc, 12);
    HexDigitsStep(0x123456789abcd, 13);
    HexDigitsStep(0x123456789abcde, 14);
    HexDigitsStep(0x123456789abcdef, 15);
    assert "01234567" + ['8'] + ['9'] + ['a'] + ['b'] + ['c'] + ['d'] + ['e'] + ['f'] == "0123456789abcdef";
  }

  /** Laying the same words out with other whitespace never changes the fingerprint. */
  lemma RelayoutKeepsFingerprint(ruleId: string, words: seq<string>, lead: string, gaps: seq<string>,
                                 lead': string, gaps': seq<string>)
    requires AllWords(words) && |gaps| == |gaps'| == |words|
    requires AllWhitespace(lead) && AllWhitespace(lead') && AreGaps(gaps) && AreGaps(gaps')
    ensures Fingerprint(ruleId, lead + Layout(words, gaps)) == Fingerprint(ruleId, lead' + Layout(words, gaps'))
  {
    WordsOfLayout(lead, words, gaps);
    WordsOfLayout(lead', words, gaps');
  }

  /** Replacing one byte of the collapsed snippet always changes the sixteen digits. */
  lemma OneByteEditChangesFingerprint(ruleId: string, s: string, t: string,
                                      before: seq<Byte>, b: Byte, b': Byte, after: seq<Byte>)
    requires b != b'
    requires Utf8(Collapse(s)) == before + [b] + after && Utf8(Collapse(t)) == before + [b'] + after
    ensures Fingerprint(ruleId, s) != Fingerprint(ruleId, t)
  {
    hide Fnv, Hex16, Utf8, Collapse;
    var rule := Utf8(ruleId + "|");
    Utf8Concat(ruleId + "|", Collapse(s));
    Utf8Concat(ruleId + "|", Collapse(t));
    assert rule + (before + [b] + after) == rule + before + [b] + after;
    assert rule + (before + [b'] + after) == rule + before + [b'] + after;
    OneByteNeverCollides(rule + before, b, b', after);
    if Fingerprint(ruleId, s) == Fingerprint(ruleId, t) {
      Hex16Injective(Fnv(Utf8(ruleId + "|" + Collapse(s))), Fnv(Utf8(ruleId + "|" + Collapse(t))));
    }
  }

  /** In particular, replacing one ASCII character of the collapsed snippet by another. */
  lemma OneCharacterEditChangesFingerprint(ruleId: string, s: string, t: string, p: string, c: char, d: char, q: string)
    requires Collapse(s) == p + [c] + q && Collapse(t) == p + [d] + q
    requires c != d && c as int < 128 && d as int < 128
    ensures Fingerprint(ruleId, s) != Fingerprint(ruleId, t)
  {
    Utf8Concat(p + [c], q);
    Utf8Concat(p, [c]);
    Utf8Concat(p + [d], q);
    Utf8Concat(p, [d]);
    assert Utf8([c]) == [c as int] && Utf8([d]) == [d as int];
    OneByteEditChangesFingerprint(ruleId, s, t, Utf8(p), c as int, d as int, Utf8(q));
  }

  // ---- A committed fingerprint ----

  lemma FoldTwo(h: U64, a: Byte, b: Byte)
    ensures Fold(h, [a, b]) == Step(Step(h, a), b)
  {
    hide Step;
    assert [a, b][1..] == [b] && [b][1..] == [];
    assert Fold(Step(h, a), [b]) == Fold(Step(Step(h, a), b), []);
  }

  lemma FoldFour(h: U64, a: Byte, b: Byte, c: Byte, d: Byte, rest: seq<Byte>)
    ensures Fold(h, [a, b, c, d] + rest) == Fold(Step(Step(Step(Step(h, a), b), c), d), rest)
  {
    hide Step;
    FoldConcat(h, [a, b, c, d], rest);
    FoldConcat(h, [a, b], [c, d]);
    assert [a, b, c, d] == [a, b] + [c, d];
    FoldTwo(h, a, b);
    FoldTwo(Step(Step(h, a), b), c, d);
  }

  lemma PinnedUpToTwo()
    ensures Step(Step(0xcbf29ce484222325, 0x52), 0x7c) == 0x9494807b5d8550b
  {
    hide Step, XorBits;
    StepIs(0xcbf29ce4842223, Octet(0, 0, 1, 0, 0, 1, 0, 1), Octet(0, 1, 0, 1, 0, 0, 1, 0), 0xaf640f4c86024335);
    StepIs(0xaf640f4c860243, Octet(0, 0, 1, 1, 0, 1, 0, 1), Octet(0, 1, 1, 1, 1, 1, 0, 0), 0x9494807b5d8550b);
  }

  lemma PinnedUpToSix()
    ensures Step(Step(Step(Step(0x9494807b5d8550b, 0x66), 0x6e), 0x20), 0x66) == 0xe1c5ebcdd2484365
  {
    hide Step, XorBits;
    StepIs(0x9494807b5d855, Octet(0, 0, 0, 0, 1, 0, 1, 1), Octet(0, 1, 1, 0, 0, 1, 1, 0), 0x9fdad219fe992837);
    StepIs(0x9fdad219fe9928, Octet(0, 0, 1, 1, 0, 1, 1, 1), Octet(0, 1, 1, 0, 1, 1, 1, 0), 0x39fb5b2b9e3f8f3b);
    StepIs(0x39fb5b2b9e3f8f, Octet(0, 0, 1, 1, 1, 0, 1, 1), Octet(0, 0, 1, 0, 0, 0, 0, 0), 0xc5ab061de6002ae1);
    StepIs(0xc5ab061de6002a, Octet(1, 1, 1, 0, 0, 0, 0, 1), Octet(0, 1, 1, 0, 0, 1, 1, 0), 0xe1c5ebcdd2484365);
  }

  lemma PinnedUpToTen()
    ensures Step(Step(Step(Step(0xe1c5ebcdd2484365, 0x6f), 0x6f), 0x20), 0x28) == 0x4d014eca5217a583
  {
    hide Step, XorBits;
    StepIs(0xe1c5ebcdd24843, Octet(0, 1, 1, 0, 0, 1, 0, 1), Octet(0, 1, 1, 0, 1, 1, 1, 1), 0xeb92b8bc50c9e9fe);
    StepIs(0xeb92b8bc50c9e9, Octet(1, 1, 1, 1, 1, 1, 1, 0), Octet(0, 1, 1, 0, 1, 1, 1, 1), 0x143978fd4717e163);
    StepIs(0x143978fd4717e1, Octet(0, 1, 1, 0, 0, 0, 1, 1), Octet(0, 0, 1, 0, 0, 0, 0, 0), 0x7589d95fcd93c4d9);
    StepIs(0x7589d95fcd93c4, Octet(1, 1, 0, 1, 1, 0, 0, 1), Octet(0, 0, 1, 0, 1, 0, 0, 0), 0x4d014eca5217a583);
  }

  lemma PinnedUpToFourteen()
    ensures Step(Step(Step(Step(0x4d014eca5217a583, 0x29), 0x20), 0x7b), 0x7d) == 0xc3410fbee30c442a
  {
    hide Step, XorBits;
    StepIs(0x4d014eca5217a5, Octet(1, 0, 0, 0, 0, 0, 1, 1), Octet(0, 0, 1, 0, 1, 0, 0, 1), 0xf0de8bc97e2e7fde);
    StepIs(0xf0de8bc97e2e7f, Octet(1, 1, 0, 1, 1, 1, 1, 0), Octet(0, 0, 1, 0, 0, 0, 0, 0), 0x78a7856169037c9a);
    StepIs(0x78a7856169037c, Octet(1, 0, 0, 1, 1, 0, 1, 0), Octet(0, 1, 1, 1, 1, 0, 1, 1), 0x824858570ed3253);
    StepIs(0x824858570ed32, Octet(0, 1, 0, 1, 0, 0, 1, 1), Octet(0, 1, 1, 1, 1, 1, 0, 1), 0xc3410fbee30c442a);
  }

  lemma PinnedHash()
    ensures Fnv([0x52] + [0x7C] + ([0x66, 0x6e, 0x20, 0x66] + ([0x6f, 0x6f, 0x20, 0x28] + [0x29, 0x20, 0x7b, 0x7d]))) == 0xc3410fbee30c442a
  {
    hide Step;
    PinnedUpToTwo();
    PinnedUpToSix();
    PinnedUpToTen();
    PinnedUpToFourteen();
    var y: seq<Byte> := [0x66, 0x6e, 0x20, 0x66];
    var z: seq<Byte> := [0x6f, 0x6f, 0x20, 0x28];
    var w: seq<Byte> := [0x29, 0x20, 0x7b, 0x7d];
    FoldConcat(OFFSET_BASIS, [0x52] + [0x7C], y + (z + w));
    FoldTwo(OFFSET_BASIS, 0x52, 0x7C);
    assert [0x52] + [0x7C] == [0x52, 0x7C];
    FoldFour(0x9494807b5d8550b, 0x66, 0x6e, 0x20, 0x66, z + w);
    FoldFour(0xe1c5ebcdd2484365, 0x6f, 0x6f, 0x20, 0x28, w);
    FoldFour(0x4d014eca5217a583, 0x29, 0x20, 0x7b, 0x7d, []);
    assert w + [] == w;
  }

  lemma PinnedHigh()
    ensures HexDigits(0xc3410fbe, 8) == "c3410fbe"
  {
    hide HexDigits;
    assert |HexDigits(0, 0)| == 0;
    HexDigitsStep(0xc, 0);
    HexDigitsStep(0xc3, 1);
    HexDigitsStep(0xc34, 2);
    HexDigitsStep(0xc341, 3);
    HexDigitsStep(0xc3410, 4);
    HexDigitsStep(0xc3410f, 5);
    HexDigitsStep(0xc3410fb, 6);
    HexDigitsStep(0xc3410fbe, 7);
  }

  lemma PinnedDigits()
    ensures Hex16(0xc3410fbee30c442a) == "c3410fbee30c442a"
  {
    PinnedHigh();
    hide HexDigits;
    HexDigitsStep(0xc3410fbee, 8);
    HexDigitsStep(0xc3410fbee3, 9);
    HexDigitsStep(0xc3410fbee30, 10);
    HexDigitsStep(0xc3410fbee30c, 11);
    HexDigitsStep(0xc3410fbee30c4, 12);
    HexDigitsStep(0xc3410fbee30c44, 13);
    HexDigitsStep(0xc3410fbee30c442, 14);
    HexDigitsStep(0xc3410fbee30c442a, 15);
    assert "c3410fbe" + ['e'] + ['3'] + ['0'] + ['c'] + ['4'] + ['4'] + ['2'] + ['a'] == "c3410fbee30c442a";
  }

  lemma PinnedGaps()
    ensures AllWords(["fn", "foo", "()", "{}"]) && AreGaps(["\t", " ", "  ", "\n"]) && AllWhitespace("  ")
  {
  }

  lemma PinnedJoin()
    ensures Join(["fn", "foo", "()", "{}"], " ") == "fn foo () {}"
  {
    assert ["fn", "foo", "()", "{}"][1..] == ["foo", "()", "{}"] && ["foo", "()", "{}"][1..] == ["()", "{}"];
    assert ["()", "{}"][1..] == ["{}"];
    assert Join(["()", "{}"], " ") == "() {}";
    assert Join(["foo", "()", "{}"], " ") == "foo () {}";
  }

  lemma PinnedLayout()
    ensures "  " + Layout(["fn", "foo", "()", "{}"], ["\t", " ", "  ", "\n"]) == "  fn\tfoo ()  {}\n"
  {
    assert ["fn", "foo", "()", "{}"][1..] == ["foo", "()", "{}"] && ["foo", "()", "{}"][1..] == ["()", "{}"];
    assert ["()", "{}"][1..] == ["{}"] && ["\t", " ", "  ", "\n"][1..] == [" ", "  ", "\n"];
    assert [" ", "  ", "\n"][1..] == ["  ", "\n"] && ["  ", "\n"][1..] == ["\n"];
    assert Layout(["{}"], ["\n"]) == "{}\n";
    assert Layout(["()", "{}"], ["  ", "\n"]) == "()  {}\n";
    assert Layout(["foo", "()", "{}"], [" ", "  ", "\n"]) == "foo ()  {}\n";
  }

  lemma PinnedLayouts()
    ensures Collapse("fn foo () {}") == "fn foo () {}" && Collapse("  fn\tfoo ()  {}\n") == "fn foo () {}"
  {
    var words := ["fn", "foo", "()", "{}"];
    PinnedJoin();
    PinnedLayout();
    PinnedGaps();
    hide Words, Layout, Join;
    JoinIsLayout(words);
    WordsOfLayout("  ", words, ["\t", " ", "  ", "\n"]);
  }

  lemma {:induction false} AsciiBytes(s: string)
    requires forall i :: 0 <= i < |s| ==> s[i] as int < 0x80
    ensures |Utf8(s)| == |s| && forall i :: 0 <= i < |s| ==> Utf8(s)[i] == s[i] as int
  {
    if s != [] {
      assert forall i :: 0 <= i < |s| - 1 ==> s[1..][i] == s[i + 1];
      AsciiBytes(s[1..]);
    }
  }

  lemma RuleByte()
    ensures Utf8("R") == [0x52]
  {
    AsciiBytes("R");
    hide Utf8;
  }

  lemma FourBytes(a: char, b: char, c: char, d: char)
    requires a as int < 0x80 && b as int < 0x80 && c as int < 0x80 && d as int < 0x80
    ensures Utf8([a, b, c, d]) == [a as int, b as int, c as int, d as int]
  {
    AsciiBytes([a, b, c, d]);
    hide Utf8;
  }

  lemma PinnedBytes()
    ensures Utf8("R") == [0x52] && Utf8("fn foo () {}") == [0x66, 0x6e, 0x20, 0x66] + ([0x6f, 0x6f, 0x20, 0x28] + [0x29, 0x20, 0x7b, 0x7d])
  {
    hide Utf8;
    FourBytes('f', 'n', ' ', 'f');
    FourBytes('o', 'o', ' ', '(');
    FourBytes(')', ' ', '{', '}');
    RuleByte();
    Utf8Concat("fn f", "oo () {}");
    Utf8Concat("oo (", ") {}");
    assert "fn f" + "oo () {}" == "fn foo () {}" && "oo (" + ") {}" == "oo () {}";
  }

  /** A committed value: rule R on the snippet `fn foo () {}`, in this and in another layout. */
  lemma PinnedFingerprint()
    ensures Fingerprint("R", "fn foo () {}") == "c3410fbee30c442a"
    ensures Fingerprint("R", "  fn\tfoo ()  {}\n") == "c3410fbee30c442a"
  {
    PinnedLayouts();
    PinnedHash();
    PinnedDigits();
    FingerprintBytes("R", "fn foo () {}");
    FingerprintBytes("R", "  fn\tfoo ()  {}\n");
    hide Hex16, Fnv, Utf8, Fingerprint, Collapse;
    PinnedBytes();
  }
}
