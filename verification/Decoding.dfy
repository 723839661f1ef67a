/** Bounded repeated percent-decoding (section 2.1 of RFC 3986). */
module Decoding {
  import opened Text
  import opened Utf8

  const PERCENT: Byte := 0x25
  const MAX_PASSES := 4

  predicate IsHex(b: Byte) {
    0x30 <= b <= 0x39 || 0x41 <= b <= 0x46 || 0x61 <= b <= 0x66
  }

  function HexValue(b: Byte): (v: nat)
    requires IsHex(b)
    ensures v < 16
  {
    if b <= 0x39 then b - 0x30 else if b <= 0x46 then b - 0x37 else b - 0x57
  }

  predicate TripletAt(s: Bytes, i: nat) {
    i + 2 < |s| && s[i] == PERCENT && IsHex(s[i + 1]) && IsHex(s[i + 2])
  }

  function Unpair(high: Byte, low: Byte): Byte
    requires IsHex(high) && IsHex(low)
  {
    16 * HexValue(high) + HexValue(low)
  }

  /** Well-formed triplets become their byte; everything else, `+` and stray `%` included, stays. */
  function Unescape(s: Bytes): Bytes {
    if s == [] then []
    else if TripletAt(s, 0) then [Unpair(s[1], s[2])] + Unescape(s[3..])
    else [s[0]] + Unescape(s[1..])
  }

  /** Decoding fails when the bytes are not UTF-8. */
  function Decode(s: Bytes): Option<Bytes> {
    if Valid(Unescape(s)) then Some(Unescape(s)) else None
  }

  /** One pass; None when the text cannot be decoded or does not change. */
  function Pass(current: Bytes, max: nat): Option<Bytes> {
    if Decode(current) == None then None
    else
      var next := Bounded(Decode(current).value, max);
      if next == current then None else Some(next)
  }

  function Repeat<T>(step: T -> Option<T>, x: T, n: nat): T {
    if n == 0 || step(x).None? then x else Repeat(step, step(x).value, n - 1)
  }

  function PassOf(max: nat): Bytes -> Option<Bytes> {
    (current: Bytes) => Pass(current, max)
  }

  function Passes(current: Bytes, n: nat, max: nat): Bytes {
    Repeat(PassOf(max), current, n)
  }

  function PassLimit(maxPasses: nat): nat {
    if maxPasses < MAX_PASSES then maxPasses else MAX_PASSES
  }

  function BoundedDecode(input: Bytes, max: nat, maxPasses: nat): Bytes {
    Passes(Bounded(input, max), PassLimit(maxPasses), max)
  }

  ghost predicate HasTriplet(s: Bytes) {
    exists i: nat :: TripletAt(s, i)
  }

  /** Decoding never lengthens, leaves text without triplets alone, and takes two bytes off each triplet. */
  lemma {:induction false} UnescapeShortens(s: Bytes)
    ensures HasTriplet(s) ==> |Unescape(s)| + 2 <= |s|
    ensures !HasTriplet(s) ==> Unescape(s) == s
  {
    if s == [] {
    } else {
      if TripletAt(s, 0) {
        UnescapeShortens(s[3..]);
      } else {
        UnescapeShortens(s[1..]);
        if HasTriplet(s) {
          var i: nat :| TripletAt(s, i);
          assert TripletAt(s[1..], i - 1);
        }
        if HasTriplet(s[1..]) {
          var i: nat :| TripletAt(s[1..], i);
          assert TripletAt(s, i + 1);
        }
      }
    }
  }

  /** Nothing more can be decoded: no triplet is left, or decoding would not give text. */
  ghost predicate Settled(s: Bytes) {
    !HasTriplet(s) || Decode(s) == None
  }

  /** A pass that changes the text takes at least two bytes off it; one that does not means settled. */
  lemma PassShortens(current: Bytes, max: nat)
    requires |current| <= max
    ensures Decode(current) == None ==> Settled(current)
    ensures Decode(current).Some? ==>
      var next := Bounded(Decode(current).value, max);
      if next == current then Settled(current) else |next| + 2 <= |current| && Valid(next)
  {
    UnescapeShortens(current);
    if Decode(current).Some? {
      BoundedIsLongest(Unescape(current), max, []);
    }
  }

  /**
   * The passes end with valid text within the bound, after `k` changing passes of at least two bytes
   * each; if fewer than allowed were made, nothing more can be decoded.
   */
  lemma {:induction false} PassesSettle(current: Bytes, n: nat, max: nat) returns (k: nat)
    requires Valid(current) && |current| <= max
    ensures var r := Passes(current, n, max);
      Valid(r) && k <= n && |r| + 2 * k <= |current| && (k < n ==> Settled(r))
    decreases n
  {
    k := 0;
    if n == 0 {
    } else {
      PassShortens(current, max);
      if Decode(current).Some? && Bounded(Decode(current).value, max) != current {
        k := PassesSettle(Bounded(Decode(current).value, max), n - 1, max);
        k := k + 1;
      }
    }
  }

  /** Text on which decoding stops early is settled; it is always valid and within the bound. */
  lemma DecodingSettles(input: Bytes, max: nat, maxPasses: nat)
    requires Valid(input)
    ensures var r := BoundedDecode(input, max, maxPasses);
      && Valid(r) && |r| <= max && |r| <= |input|
      && (Settled(r) || |r| + 2 * PassLimit(maxPasses) <= |Bounded(input, max)|)
  {
    BoundedIsLongest(input, max, []);
    var k := PassesSettle(Bounded(input, max), PassLimit(maxPasses), max);
  }

  const LOWER_HEX := "0123456789abcdef"
  const UPPER_HEX := "0123456789ABCDEF"

  /** The byte is the hex digit for `v`, in either case. */
  ghost predicate IsDigitFor(b: Byte, v: nat) {
    v < 16 && (b == LOWER_HEX[v] as int || b == UPPER_HEX[v] as int)
  }

  lemma HexAlphabet(v: nat)
    requires v < 16
    ensures LOWER_HEX[v] as int == if v < 10 then 48 + v else 87 + v
    ensures UPPER_HEX[v] as int == if v < 10 then 48 + v else 55 + v
  {
  }

  /** A byte is read as a hex digit exactly when it is one, and as the digit that it is. */
  lemma HexDigitExactly(b: Byte, v: nat)
    ensures IsDigitFor(b, v) <==> IsHex(b) && HexValue(b) == v
  {
    if v < 16 {
      HexAlphabet(v);
    }
  }

  /** `%` and the two hex digits of `b`. */
  ghost predicate EscapesByte(e: Bytes, b: Byte) {
    |e| >= 3 && e[0] == PERCENT && IsDigitFor(e[1], b / 16) && IsDigitFor(e[2], b % 16)
  }

  lemma EscapedByteIsTriplet(e: Bytes, b: Byte)
    ensures EscapesByte(e, b) <==> TripletAt(e, 0) && Unpair(e[1], e[2]) == b
  {
    if |e| >= 3 {
      HexDigitExactly(e[1], b / 16);
      HexDigitExactly(e[2], b % 16);
    }
  }

  /**
   * `e` is a percent-encoding of `s`: each byte is itself, unless it is `%`, or a triplet with hex
   * digits in either case.
   */
  ghost predicate Encodes(e: Bytes, s: Bytes) {
    if s == [] then e == []
    else
      || (e != [] && e[0] == s[0] && s[0] != PERCENT && Encodes(e[1..], s[1..]))
      || (EscapesByte(e, s[0]) && Encodes(e[3..], s[1..]))
  }

  lemma {:induction false} UnescapeUndoes(e: Bytes, s: Bytes)
    requires Encodes(e, s)
    ensures Unescape(e) == s
  {
    if s == [] {
    } else {
      EscapedByteIsTriplet(e, s[0]);
      if TripletAt(e, 0) {
        UnescapeUndoes(e[3..], s[1..]);
      } else {
        UnescapeUndoes(e[1..], s[1..]);
      }
    }
  }

  /** A triplet starts at `i`: `%` and two hex digits of some values. */
  ghost predicate EscapeAt(s: Bytes, i: nat) {
    i < |s| && exists b: Byte :: EscapesByte(s[i..], b)
  }

  lemma EscapeIsTriplet(s: Bytes, i: nat)
    ensures EscapeAt(s, i) <==> TripletAt(s, i)
  {
    if TripletAt(s, i) {
      var b := Unpair(s[i + 1], s[i + 2]);
      EscapedByteIsTriplet(s[i..], b);
    }
    if EscapeAt(s, i) {
      var b: Byte :| EscapesByte(s[i..], b);
      EscapedByteIsTriplet(s[i..], b);
    }
  }

  /** What decoding does to any text: triplets become their byte, and every other byte stays as it is. */
  lemma UnescapeExactly(e: Bytes, b: Byte, rest: Bytes)
    ensures Unescape([]) == []
    ensures EscapesByte(e, b) && |e| == 3 ==> Unescape(e + rest) == [b] + Unescape(rest)
    ensures !EscapeAt([b] + rest, 0) ==> Unescape([b] + rest) == [b] + Unescape(rest)
  {
    if EscapesByte(e, b) && |e| == 3 {
      EscapedByteIsTriplet(e, b);
      assert (e + rest)[3..] == rest;
    }
    EscapeIsTriplet([b] + rest, 0);
    assert ([b] + rest)[1..] == rest;
  }

  lemma {:induction false} EncodingLength(e: Bytes, s: Bytes)
    requires Encodes(e, s)
    ensures |e| >= |s|
  {
    if s == [] {
    } else {
      if e[0] == s[0] && s[0] != PERCENT && Encodes(e[1..], s[1..]) {
        EncodingLength(e[1..], s[1..]);
      } else {
        EncodingLength(e[3..], s[1..]);
      }
    }
  }

  ghost predicate Layer(layers: seq<Bytes>, i: nat)
    requires i < |layers|
  {
    Valid(layers[i]) && (i > 0 ==> Encodes(layers[i], layers[i - 1]))
  }

  /** layers[0] encoded once is layers[1], and so on; every layer is text. */
  ghost predicate Layers(layers: seq<Bytes>) {
    && layers != []
    && (forall i :: 0 <= i < |layers| ==> Layer(layers, i))
  }

  /** A pass takes one encoding off, and stops at text that is its own encoding. */
  lemma PassPeelsLayer(e: Bytes, s: Bytes, max: nat)
    requires Encodes(e, s) && Valid(s) && |e| <= max
    ensures Pass(e, max) == if e == s then None else Some(s)
  {
    UnescapeUndoes(e, s);
    EncodingLength(e, s);
  }

  lemma {:induction false} LayersGrow(layers: seq<Bytes>, k: nat, n: nat)
    requires Layers(layers) && k <= n < |layers|
    ensures |layers[k]| <= |layers[n]|
  {
    if k == n {
    } else {
      assert Layer(layers, n);
      EncodingLength(layers[n], layers[n - 1]);
      LayersGrow(layers, k, n - 1);
    }
  }

  lemma {:induction false} RepeatPeels<T>(step: T -> Option<T>, layers: seq<T>, n: nat, more: nat)
    requires n < |layers|
    requires forall k {:trigger layers[k]} :: 0 < k <= n ==>
      step(layers[k]) == if layers[k] == layers[k - 1] then None else Some(layers[k - 1])
    ensures Repeat(step, layers[n], n + more) == Repeat(step, layers[0], more)
  {
    if n == 0 {
    } else {
      RepeatPeels(step, layers, n - 1, more);
    }
  }

  /** n passes peel off exactly n encodings, and the passes left go to the text underneath. */
  lemma PassesPeelLayers(layers: seq<Bytes>, n: nat, more: nat, max: nat)
    requires Layers(layers) && n < |layers| && |layers[n]| <= max
    ensures Passes(layers[n], n + more, max) == Passes(layers[0], more, max)
  {
    forall k | 0 < k <= n
      ensures PassOf(max)(layers[k]) == if layers[k] == layers[k - 1] then None else Some(layers[k - 1])
    {
      assert Layer(layers, k) && Layer(layers, k - 1);
      LayersGrow(layers, k, n);
      PassPeelsLayer(layers[k], layers[k - 1], max);
    }
    RepeatPeels(PassOf(max), layers, n, more);
  }

  /** With n passes allowed, four at most, decoding an n-fold encoding that fits the bound gives back the text. */
  lemma DecodeUndoesEncoding(layers: seq<Bytes>, max: nat, maxPasses: nat)
    requires Layers(layers) && |layers[|layers| - 1]| <= max
    requires |layers| - 1 == if maxPasses < 4 then maxPasses else 4
    ensures BoundedDecode(layers[|layers| - 1], max, maxPasses) == layers[0]
  {
    PassesPeelLayers(layers, |layers| - 1, 0, max);
  }

  // The usual encoders, which differ in the case of their digits, are such encodings.

  predicate Unreserved(b: Byte) {
    0x30 <= b <= 0x39 || 0x41 <= b <= 0x5A || 0x61 <= b <= 0x7A || b in {0x2D, 0x2E, 0x5F, 0x7E}
  }

  function HexDigit(v: nat, upper: bool): (b: Byte)
    requires v < 16
    ensures IsDigitFor(b, v)
  {
    HexAlphabet(v);
    (if upper then UPPER_HEX[v] else LOWER_HEX[v]) as int
  }

  /** Each digit is written in the case that `upper` chooses for its position from the end of the text. */
  function Encode(s: Bytes, upper: nat -> bool): Bytes {
    if s == [] then []
    else
      (if Unreserved(s[0]) then [s[0]]
       else [PERCENT, HexDigit(s[0] / 16, upper(2 * |s|)), HexDigit(s[0] % 16, upper(2 * |s| + 1))])
      + Encode(s[1..], upper)
  }

  lemma DigitIsAscii(b: Byte, v: nat)
    requires IsDigitFor(b, v)
    ensures b < 0x80
  {
    HexAlphabet(v);
  }

  lemma {:induction false} EncodeEncodes(s: Bytes, upper: nat -> bool)
    ensures Encodes(Encode(s, upper), s) && Ascii(Encode(s, upper))
  {
    if s == [] {
    } else {
      EncodeEncodes(s[1..], upper);
      var e := Encode(s, upper);
      if Unreserved(s[0]) {
        assert e[1..] == Encode(s[1..], upper);
      } else {
        assert e[3..] == Encode(s[1..], upper);
        DigitIsAscii(e[1], s[0] / 16);
        DigitIsAscii(e[2], s[0] % 16);
        assert EscapesByte(e, s[0]);
      }
    }
  }

  function Encoded(s: Bytes, n: nat, upper: nat -> bool): Bytes {
    if n == 0 then s else Encode(Encoded(s, n - 1, upper), upper)
  }

  lemma {:induction false} EncodedLayers(s: Bytes, n: nat, upper: nat -> bool) returns (layers: seq<Bytes>)
    requires Valid(s)
    ensures Layers(layers) && |layers| == n + 1 && layers[0] == s && layers[n] == Encoded(s, n, upper)
  {
    if n == 0 {
      layers := [s];
    } else {
      layers := EncodedLayers(s, n - 1, upper);
      EncodeEncodes(Encoded(s, n - 1, upper), upper);
      AsciiIsValid(Encoded(s, n, upper));
      var inner := layers;
      layers := inner + [Encoded(s, n, upper)];
      forall i | 0 <= i < |layers|
        ensures Layer(layers, i)
      {
        assert i < n ==> Layer(inner, i);
      }
    }
  }

  /** Text percent-encoded as often as the decoder may pass over it comes back, whatever the case of the digits. */
  lemma RoundTrip(s: Bytes, max: nat, maxPasses: nat, upper: nat -> bool)
    requires Valid(s) && |Encoded(s, PassLimit(maxPasses), upper)| <= max
    ensures BoundedDecode(Encoded(s, PassLimit(maxPasses), upper), max, maxPasses) == s
  {
    var layers := EncodedLayers(s, PassLimit(maxPasses), upper);
    DecodeUndoesEncoding(layers, max, maxPasses);
  }

  method DecodeBounded(input: Bytes, max: nat, maxPasses: nat) returns (current: Bytes)
    ensures current == BoundedDecode(input, max, maxPasses)
  {
    current := Bound(input, max);
    var limit := PassLimit(maxPasses);
    var i := 0;
    while i < limit
      invariant 0 <= i <= limit
      invariant Passes(current, limit - i, max) == BoundedDecode(input, max, maxPasses)
    {
      var decoded := Decode(current);
      if decoded == None {
        break;
      }
      var next := Bound(decoded.value, max);
      if next == current {
        break;
      }
      current, i := next, i + 1;
    }
  }
}
