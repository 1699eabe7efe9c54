/** Well-formed UTF-8, as in section 4 of RFC 3629. */
module Utf8 {

  type Byte = b: nat | b < 256

  type Bytes = seq<Byte>

  predicate IsContinuation(b: Byte) { 0x80 <= b <= 0xBF }

  predicate StartsTriple(a: Byte, b: Byte) {
    || (a == 0xE0 && 0xA0 <= b <= 0xBF)
    || (0xE1 <= a <= 0xEC && IsContinuation(b))
    || (a == 0xED && 0x80 <= b <= 0x9F)
    || (0xEE <= a <= 0xEF && IsContinuation(b))
  }

  predicate StartsQuad(a: Byte, b: Byte) {
    || (a == 0xF0 && 0x90 <= b <= 0xBF)
    || (0xF1 <= a <= 0xF3 && IsContinuation(b))
    || (a == 0xF4 && 0x80 <= b <= 0x8F)
  }

  /** The length of the character `s` starts with, or zero if it starts with none. */
  function CharLen(s: Bytes): (n: nat)
    ensures n <= 4 && n <= |s|
  {
    if |s| >= 1 && s[0] < 0x80 then 1
    else if |s| >= 2 && 0xC2 <= s[0] <= 0xDF && IsContinuation(s[1]) then 2
    else if |s| >= 3 && StartsTriple(s[0], s[1]) && IsContinuation(s[2]) then 3
    else if |s| >= 4 && StartsQuad(s[0], s[1]) && IsContinuation(s[2]) && IsContinuation(s[3]) then 4
    else 0
  }

  predicate Valid(s: Bytes)
    decreases |s|
  {
    s == [] || (CharLen(s) > 0 && Valid(s[CharLen(s)..]))
  }

  /** Text that may still be growing: some continuation completes it. */
  ghost predicate IsTextPrefix(s: Bytes) {
    exists rest: Bytes :: Valid(s + rest)
  }

  lemma CharLenIgnoresRest(s: Bytes, rest: Bytes)
    requires CharLen(s) > 0
    ensures CharLen(s + rest) == CharLen(s)
  {
  }

  lemma ValidUnfold(s: Bytes)
    requires CharLen(s) > 0
    ensures Valid(s) <==> Valid(s[CharLen(s)..])
  {
  }

  lemma {:induction false} ValidConcat(a: Bytes, b: Bytes)
    requires Valid(a) && Valid(b)
    ensures Valid(a + b)
    decreases |a|
  {
    if a == [] {
      assert a + b == b;
    } else {
      var n, whole := CharLen(a), a + b;
      CharLenIgnoresRest(a, b);
      assert whole[n..] == a[n..] + b;
      ValidConcat(a[n..], b);
      ValidUnfold(whole);
    }
  }

  lemma {:induction false} ValidCancel(a: Bytes, b: Bytes)
    requires Valid(a) && Valid(a + b)
    ensures Valid(b)
    decreases |a|
  {
    if a == [] {
      assert a + b == b;
    } else {
      var n := CharLen(a);
      CharLenIgnoresRest(a, b);
      assert (a + b)[n..] == a[n..] + b;
      ValidCancel(a[n..], b);
    }
  }

  lemma CutOff(s: Bytes, rest: Bytes, n: nat)
    requires n <= |s|
    ensures (s + rest)[n..] == s[n..] + rest && (s + rest)[..n] == s[..n]
  {
  }

  lemma FirstCharacter(s: Bytes)
    requires CharLen(s) > 0
    ensures CharLen(s) <= |s| && CharLen(s[..CharLen(s)]) == CharLen(s)
  {
  }

  lemma CharThenValid(s: Bytes, n: nat, more: Bytes)
    requires 0 < n <= |s| && CharLen(s[..n]) == n && Valid(more)
    ensures Valid(s[..n] + more)
  {
    assert s[..n][n..] == [];
    ValidConcat(s[..n], more);
  }

  /** Cutting text anywhere leaves at most three bytes of an unfinished character. */
  lemma {:induction false} CutLeavesAtMostThree(s: Bytes, rest: Bytes) returns (k: nat)
    requires Valid(s + rest)
    ensures k <= 3 && k <= |s| && Valid(s[..|s| - k])
    decreases |s|
  {
    if s == [] { return 0; }
    var n := CharLen(s + rest);
    FirstCharacter(s + rest);
    if n <= |s| {
      CutOff(s, rest, n);
      k := CutLeavesAtMostThree(s[n..], rest);
      CharThenValid(s, n, s[n..][..|s| - n - k]);
      assert s[..|s| - k] == s[..n] + s[n..][..|s| - n - k];
    } else {
      k := |s|;
    }
  }

  // ---- The characters behind the bytes ----

  /** Code points that are no surrogates. */
  predicate IsScalar(c: nat) { c < 0xD800 || 0xE000 <= c < 0x110000 }

  /** The table of section 3 of RFC 3629. */
  function Encoded(c: nat): Bytes
    requires IsScalar(c)
  {
    if c < 0x80 then [c]
    else if c < 0x800 then [0xC0 + c / 0x40, 0x80 + c % 0x40]
    else if c < 0x10000 then [0xE0 + c / 0x1000, 0x80 + c / 0x40 % 0x40, 0x80 + c % 0x40]
    else [0xF0 + c / 0x40000, 0x80 + c / 0x1000 % 0x40, 0x80 + c / 0x40 % 0x40, 0x80 + c % 0x40]
  }

  function Text(cs: seq<nat>): Bytes
    requires forall c :: c in cs ==> IsScalar(c)
  {
    if cs == [] then [] else Encoded(cs[0]) + Text(cs[1..])
  }

  lemma EncodedStarts(c: nat, rest: Bytes)
    requires IsScalar(c)
    ensures CharLen(Encoded(c) + rest) == |Encoded(c)|
  {
  }

  /** Six bits below the others. */
  lemma SixBits(high: nat, low: nat)
    requires low < 0x40
    ensures (high * 0x40 + low) / 0x40 == high && (high * 0x40 + low) % 0x40 == low
  {
  }

  lemma TwelveBits(c: nat)
    ensures c / 0x40 / 0x40 == c / 0x1000
  {
  }

  lemma EighteenBits(c: nat)
    ensures c / 0x1000 / 0x40 == c / 0x40000
  {
  }

  lemma CharIsEncoded(s: Bytes) returns (c: nat)
    requires CharLen(s) > 0
    ensures IsScalar(c) && s[..CharLen(s)] == Encoded(c)
  {
    var a: nat := s[0];
    if a < 0x80 {
      c := a;
    } else if a < 0xE0 {
      c := PairIsEncoded(s);
    } else if a < 0xF0 {
      c := TripleIsEncoded(s);
    } else {
      c := QuadIsEncoded(s);
    }
  }

  lemma PairIsEncoded(s: Bytes) returns (c: nat)
    requires CharLen(s) == 2
    ensures IsScalar(c) && s[..2] == Encoded(c)
  {
    var a: nat, b: nat := s[0] - 0xC0, s[1] - 0x80;
    c := a * 0x40 + b;
    SixBits(a, b);
  }

  lemma TripleIsEncoded(s: Bytes) returns (c: nat)
    requires CharLen(s) == 3
    ensures IsScalar(c) && s[..3] == Encoded(c)
  {
    var a: nat, b: nat, d: nat := s[0] - 0xE0, s[1] - 0x80, s[2] - 0x80;
    c := (a * 0x40 + b) * 0x40 + d;
    SixBits(a * 0x40 + b, d);
    SixBits(a, b);
    TwelveBits(c);
    assert s[..3] == [0xE0 + a, 0x80 + b, 0x80 + d];
  }

  lemma QuadIsEncoded(s: Bytes) returns (c: nat)
    requires CharLen(s) == 4
    ensures IsScalar(c) && s[..4] == Encoded(c)
  {
    var a: nat, b: nat, d: nat, e: nat := s[0] - 0xF0, s[1] - 0x80, s[2] - 0x80, s[3] - 0x80;
    c := ((a * 0x40 + b) * 0x40 + d) * 0x40 + e;
    SixBits((a * 0x40 + b) * 0x40 + d, e);
    SixBits(a * 0x40 + b, d);
    SixBits(a, b);
    TwelveBits(c);
    EighteenBits(c);
    assert s[..4] == [0xF0 + a, 0x80 + b, 0x80 + d, 0x80 + e];
  }

  lemma {:induction false} TextIsValid(cs: seq<nat>)
    requires forall c :: c in cs ==> IsScalar(c)
    ensures Valid(Text(cs))
  {
    if cs != [] {
      EncodedStarts(cs[0], Text(cs[1..]));
      TextIsValid(cs[1..]);
      assert (Encoded(cs[0]) + Text(cs[1..]))[|Encoded(cs[0])|..] == Text(cs[1..]);
    }
  }

  lemma {:induction false} ValidIsText(s: Bytes) returns (cs: seq<nat>)
    requires Valid(s)
    ensures (forall c :: c in cs ==> IsScalar(c)) && Text(cs) == s
    decreases |s|
  {
    if s == [] {
      cs := [];
    } else {
      var c := CharIsEncoded(s);
      var rest := ValidIsText(s[CharLen(s)..]);
      cs := [c] + rest;
      assert s == s[..CharLen(s)] + s[CharLen(s)..] && cs[1..] == rest;
    }
  }

  /** The bytes are well-formed exactly when they encode a sequence of characters. */
  lemma ValidExactly(s: Bytes)
    ensures Valid(s) <==> exists cs: seq<nat> :: (forall c :: c in cs ==> IsScalar(c)) && Text(cs) == s
  {
    if Valid(s) { var cs := ValidIsText(s); }
    if cs: seq<nat> :| (forall c :: c in cs ==> IsScalar(c)) && Text(cs) == s { TextIsValid(cs); }
  }

  // ---- Replacing what is not text ----

  const REPLACEMENT: Bytes := [0xEF, 0xBF, 0xBD]

  /** Each run of bytes that start no character becomes one replacement character. */
  function ToValid(s: Bytes, inBadRun: bool): (r: Bytes)
    decreases |s|
  {
    if s == [] then []
    else
      var n := CharLen(s);
      if n > 0 then s[..n] + ToValid(s[n..], false)
      else (if inBadRun then [] else REPLACEMENT) + ToValid(s[1..], true)
  }

  lemma {:induction false} ToValidIsValid(s: Bytes, inBadRun: bool)
    ensures Valid(ToValid(s, inBadRun))
    decreases |s|
  {
    if s != [] {
      var n := CharLen(s);
      if n > 0 {
        ToValidIsValid(s[n..], false);
        assert CharLen(s[..n]) == n && s[..n][n..] == [];
        ValidConcat(s[..n], ToValid(s[n..], false));
      } else {
        ToValidIsValid(s[1..], true);
        assert CharLen(REPLACEMENT) == 3 && REPLACEMENT[3..] == [];
        ValidConcat(REPLACEMENT, ToValid(s[1..], true));
        assert [] + ToValid(s[1..], true) == ToValid(s[1..], true);
      }
    }
  }

  /** Text is left alone. */
  lemma {:induction false} ToValidKeepsText(s: Bytes)
    requires Valid(s)
    ensures ToValid(s, false) == s
    decreases |s|
  {
    if s != [] {
      var n := CharLen(s);
      ToValidKeepsText(s[n..]);
      assert s == s[..n] + s[n..];
    }
  }

  lemma ToValidUnfold(s: Bytes, n: nat)
    requires n == CharLen(s) > 0
    ensures ToValid(s, false) == s[..n] + ToValid(s[n..], false)
  {
  }

  lemma {:induction false} ToValidAfterText(text: Bytes, s: Bytes)
    requires Valid(text)
    ensures ToValid(text + s, false) == text + ToValid(s, false)
    decreases |text|
  {
    if text == [] {
      assert text + s == s;
    } else {
      var n := CharLen(text);
      CharLenIgnoresRest(text, s);
      ToValidUnfold(text + s, n);
      CutOff(text, s, n);
      ToValidAfterText(text[n..], s);
      RejoinsThere(text, n, ToValid(s, false));
    }
  }

  lemma RejoinsThere(text: Bytes, n: nat, rest: Bytes)
    requires n <= |text|
    ensures text[..n] + (text[n..] + rest) == text + rest
  {
    assert text == text[..n] + text[n..];
  }

  /** No character starts in the first `n` bytes. */
  ghost predicate BadRun(s: Bytes, n: nat)
    requires n <= |s|
  {
    forall i :: 0 <= i < n ==> CharLen(s[i..]) == 0
  }

  lemma BadByte(s: Bytes)
    requires s != [] && CharLen(s) == 0
    ensures ToValid(s, false) == REPLACEMENT + ToValid(s[1..], true)
    ensures ToValid(s, true) == ToValid(s[1..], true)
  {
    assert [] + ToValid(s[1..], true) == ToValid(s[1..], true);
  }

  lemma RunIsOver(s: Bytes)
    requires s == [] || CharLen(s) > 0
    ensures ToValid(s, true) == ToValid(s, false)
  {
  }

  lemma {:induction false} BadRunIsSkipped(s: Bytes, n: nat)
    requires n <= |s| && BadRun(s, n)
    ensures ToValid(s, true) == ToValid(s[n..], true)
    decreases n
  {
    if n > 0 {
      assert s[0..] == s;
      BadByte(s);
      BadRunGoesOn(s, n);
      BadRunIsSkipped(s[1..], n - 1);
      assert s[1..][n - 1..] == s[n..];
    } else {
      assert s[0..] == s;
    }
  }

  lemma BadRunGoesOn(s: Bytes, n: nat)
    requires 0 < n <= |s| && BadRun(s, n)
    ensures CharLen(s) == 0 && BadRun(s[1..], n - 1)
  {
    assert s[0..] == s;
    forall i | 0 <= i < n - 1 ensures CharLen(s[1..][i..]) == 0 { assert s[1..][i..] == s[i + 1..]; }
  }

  /** Between text and the next character, a run of bytes that start none becomes one replacement. */
  lemma BadRunIsReplacedOnce(text: Bytes, s: Bytes, n: nat)
    requires Valid(text) && 0 < n <= |s| && BadRun(s, n) && (n < |s| ==> CharLen(s[n..]) > 0)
    ensures ToValid(text + s, false) == text + ([0xEF, 0xBF, 0xBD] + ToValid(s[n..], false))
  {
    ToValidAfterText(text, s);
    BadRunGoesOn(s, n);
    BadByte(s);
    BadRunIsSkipped(s[1..], n - 1);
    assert s[1..][n - 1..] == s[n..];
    RunIsOver(s[n..]);
  }
}
