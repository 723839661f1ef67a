/** UTF-8 byte strings (section 3 of RFC 3629) and their truncation at a character boundary. */
module Utf8 {

  type Byte = b: int | 0 <= b < 256

  type Bytes = seq<Byte>

  predicate IsContinuation(b: Byte) {
    0x80 <= b <= 0xBF
  }

  /** The length of the well-formed character at the front, or zero if there is none. */
  function CharLength(s: Bytes): (n: nat)
    ensures n <= 4 && n <= |s|
  {
    if s == [] then 0
    else if s[0] <= 0x7F then 1
    else if 0xC2 <= s[0] <= 0xDF && |s| >= 2 && IsContinuation(s[1]) then 2
    else if 0xE0 <= s[0] <= 0xEF && |s| >= 3 && IsContinuation(s[1]) && IsContinuation(s[2])
      && (s[0] == 0xE0 ==> s[1] >= 0xA0) && (s[0] == 0xED ==> s[1] <= 0x9F) then 3
    else if 0xF0 <= s[0] <= 0xF4 && |s| >= 4 && IsContinuation(s[1]) && IsContinuation(s[2]) && IsContinuation(s[3])
      && (s[0] == 0xF0 ==> s[1] >= 0x90) && (s[0] == 0xF4 ==> s[1] <= 0x8F) then 4
    else 0
  }

  predicate Valid(s: Bytes) {
    s == [] || (CharLength(s) > 0 && Valid(s[CharLength(s)..]))
  }

  /** The scalar values of Unicode: the code points without the surrogates. */
  type Scalar = c: int | 0 <= c <= 0x10FFFF && !(0xD800 <= c <= 0xDFFF)

  /** The encoding of section 3 of RFC 3629. */
  function EncodeScalar(c: Scalar): Bytes {
    if c < 0x80 then [c]
    else if c < 0x800 then [0xC0 + c / 64, 0x80 + c % 64]
    else if c < 0x1_0000 then [0xE0 + c / 4096, 0x80 + c / 64 % 64, 0x80 + c % 64]
    else [0xF0 + c / 262144, 0x80 + c / 4096 % 64, 0x80 + c / 64 % 64, 0x80 + c % 64]
  }

  lemma ScalarIsChar(c: Scalar, s: Bytes)
    requires EncodeScalar(c) <= s
    ensures CharLength(s) == |EncodeScalar(c)|
  {
    var e := EncodeScalar(c);
    assert forall i :: 0 <= i < |e| ==> s[i] == e[i];
  }

  lemma SixBits(q: nat, r: nat)
    requires r < 64
    ensures (q * 64 + r) / 64 == q && (q * 64 + r) % 64 == r
  {
  }

  lemma TwoBytes(a: nat, b: nat) returns (c: Scalar)
    requires 2 <= a < 32 && b < 64
    ensures EncodeScalar(c) == [0xC0 + a, 0x80 + b]
  {
    SixBits(a, b);
    c := a * 64 + b;
  }

  lemma ThreeBytes(a: nat, b: nat, d: nat) returns (c: Scalar)
    requires a < 16 && b < 64 && d < 64 && (a == 0 ==> b >= 32) && (a == 13 ==> b < 32)
    ensures EncodeScalar(c) == [0xE0 + a, 0x80 + b, 0x80 + d]
  {
    SixBits(a, b);
    SixBits(a * 64 + b, d);
    c := (a * 64 + b) * 64 + d;
    assert c / 4096 == c / 64 / 64;
  }

  lemma FourBytes(a: nat, b: nat, d: nat, e: nat) returns (c: Scalar)
    requires a < 5 && b < 64 && d < 64 && e < 64 && (a == 0 ==> b >= 16) && (a == 4 ==> b < 16)
    ensures EncodeScalar(c) == [0xF0 + a, 0x80 + b, 0x80 + d, 0x80 + e]
  {
    SixBits(a, b);
    SixBits(a * 64 + b, d);
    SixBits((a * 64 + b) * 64 + d, e);
    c := ((a * 64 + b) * 64 + d) * 64 + e;
    assert c / 4096 == c / 64 / 64;
    assert c / 262144 == c / 64 / 64 / 64;
  }

  /** The character at the front of a byte string is the encoding of a scalar value. */
  lemma CharIsScalar(s: Bytes) returns (c: Scalar)
    requires CharLength(s) > 0
    ensures EncodeScalar(c) == s[..CharLength(s)]
  {
    var n := CharLength(s);
    if n == 1 {
      c := s[0];
    } else if n == 2 {
      c := TwoBytes(s[0] - 0xC0, s[1] - 0x80);
    } else if n == 3 {
      c := ThreeBytes(s[0] - 0xE0, s[1] - 0x80, s[2] - 0x80);
    } else {
      c := FourBytes(s[0] - 0xF0, s[1] - 0x80, s[2] - 0x80, s[3] - 0x80);
    }
  }

  function EncodeText(cs: seq<Scalar>): Bytes {
    if cs == [] then [] else EncodeScalar(cs[0]) + EncodeText(cs[1..])
  }

  lemma {:induction false} TextIsValid(cs: seq<Scalar>)
    ensures Valid(EncodeText(cs))
  {
    if cs == [] {
    } else {
      var e, rest := EncodeScalar(cs[0]), EncodeText(cs[1..]);
      ScalarIsChar(cs[0], e + rest);
      assert (e + rest)[|e|..] == rest;
      TextIsValid(cs[1..]);
    }
  }

  lemma {:induction false} ValidIsText(s: Bytes) returns (cs: seq<Scalar>)
    requires Valid(s)
    ensures EncodeText(cs) == s
  {
    if s == [] {
      cs := [];
    } else {
      var n := CharLength(s);
      var c := CharIsScalar(s);
      var rest := ValidIsText(s[n..]);
      cs := [c] + rest;
      assert cs[1..] == rest && s == s[..n] + s[n..];
    }
  }

  /** The valid byte strings are exactly the encodings of sequences of scalar values. */
  lemma ValidExactly(s: Bytes)
    ensures Valid(s) <==> exists cs :: EncodeText(cs) == s
  {
    if Valid(s) {
      var cs := ValidIsText(s);
    }
    if exists cs :: EncodeText(cs) == s {
      var cs :| EncodeText(cs) == s;
      TextIsValid(cs);
    }
  }

  /** Whether a string slice may end here. */
  predicate IsBoundary(s: Bytes, i: nat) {
    i == 0 || i == |s| || (i < |s| && !IsContinuation(s[i]))
  }

  /** The valid prefixes of a valid string are those that end at a boundary. */
  lemma {:induction false} PrefixValid(s: Bytes, end: nat)
    requires Valid(s) && end <= |s|
    ensures Valid(s[..end]) <==> IsBoundary(s, end)
  {
    if 0 < end < |s| {
      var n := CharLength(s);
      var p := s[..end];
      if end < n {
        assert CharLength(p) == 0;
      } else {
        assert CharLength(p) == n;
        PrefixValid(s[n..], end - n);
        assert p[n..] == s[n..][..end - n];
        if end == n {
          assert CharLength(s[n..]) > 0;
        }
      }
    } else {
      assert s[..|s|] == s;
    }
  }

  /** A character is at most four bytes long, so a boundary is never far below. */
  lemma {:induction false} BoundaryNear(s: Bytes, i: nat) returns (b: nat)
    requires Valid(s) && i < |s|
    ensures b <= i < b + 4 && IsBoundary(s, b)
  {
    var n := CharLength(s);
    if i < n {
      b := 0;
    } else {
      b := BoundaryNear(s[n..], i - n);
      assert CharLength(s[n..]) > 0;
      b := b + n;
    }
  }

  /** The last boundary at or below `end`. */
  function Floor(s: Bytes, end: nat): nat {
    if IsBoundary(s, end) || end == 0 then end else Floor(s, end - 1)
  }

  function Bounded(s: Bytes, max: nat): (r: Bytes)
    ensures r <= s && |r| <= max
  {
    if |s| <= max then s else FloorAtMost(s, max); s[..Floor(s, max)]
  }

  lemma {:induction false} FloorAtMost(s: Bytes, end: nat)
    ensures Floor(s, end) <= end && IsBoundary(s, Floor(s, end))
    ensures forall b :: Floor(s, end) < b <= end ==> !IsBoundary(s, b)
  {
    if !IsBoundary(s, end) {
      FloorAtMost(s, end - 1);
    }
  }

  /** The bound keeps the longest valid prefix that fits, and gives up at most three bytes to do so. */
  lemma BoundedIsLongest(s: Bytes, max: nat, other: Bytes)
    requires Valid(s)
    ensures var r := Bounded(s, max);
      && Valid(r)
      && (|s| <= max ==> r == s)
      && (|s| > max ==> |r| + 3 >= max)
      && (other <= s && Valid(other) && |other| <= max ==> |other| <= |r|)
  {
    if |s| > max {
      FloorAtMost(s, max);
      PrefixValid(s, Floor(s, max));
      var b := BoundaryNear(s, max);
      if other <= s && Valid(other) && |other| <= max {
        assert other == s[..|other|];
        PrefixValid(s, |other|);
      }
    }
  }

  method Bound(input: Bytes, max: nat) returns (r: Bytes)
    ensures r == Bounded(input, max)
  {
    if |input| <= max {
      return input;
    }
    var end := max;
    while end > 0 && !IsBoundary(input, end)
      invariant 0 <= end <= max && Floor(input, end) == Floor(input, max)
    {
      end := end - 1;
    }
    r := input[..end];
  }

  const ELLIPSIS: Bytes := [0x2E, 0x2E, 0x2E]

  /** The preview of a long value: its longest valid prefix within the limit, and an ellipsis. */
  method Truncate(value: Bytes, max: nat) returns (r: Bytes)
    requires Valid(value)
    ensures Valid(r)
    ensures |value| <= max ==> r == value
    ensures |value| > max ==> r == Bounded(value, max) + ELLIPSIS
  {
    r := Bound(value, max);
    BoundedIsLongest(value, max, []);
    if |value| > max {
      ValidConcat(r, ELLIPSIS);
      assert ELLIPSIS[1..][1..] == [0x2E];
      r := r + ELLIPSIS;
    }
  }

  lemma {:induction false} ValidConcat(a: Bytes, b: Bytes)
    requires Valid(a)
    ensures Valid(a + b) <==> Valid(b)
  {
    if a == [] {
      assert a + b == b;
    } else {
      var n := CharLength(a);
      assert CharLength(a + b) == n;
      assert (a + b)[n..] == a[n..] + b;
      ValidConcat(a[n..], b);
    }
  }

  predicate Ascii(s: Bytes) {
    forall i :: 0 <= i < |s| ==> s[i] <= 0x7F
  }

  lemma {:induction false} AsciiIsValid(s: Bytes)
    requires Ascii(s)
    ensures Valid(s)
  {
    if s == [] {
    } else {
      AsciiIsValid(s[1..]);
    }
  }
}
