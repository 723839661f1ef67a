/** Strings as sequences: splitting and joining, ASCII case folding, trimming. */
module Text {

  datatype Option<+T> = None | Some(value: T)

  predicate Free<T(==)>(s: seq<T>, sep: T) {
    sep !in s
  }

  /** The pieces of `s` between the occurrences of `sep`; there is always at least one. */
  function Split<T(==)>(s: seq<T>, sep: T): (pieces: seq<seq<T>>)
    ensures |pieces| > 0
    ensures forall i :: 0 <= i < |pieces| ==> Free(pieces[i], sep)
  {
    if s == [] then [[]]
    else
      var rest := Split(s[1..], sep);
      if s[0] == sep then [[]] + rest else PrependTo(s[0], rest)
  }

  function Join<T>(pieces: seq<seq<T>>, sep: T): seq<T> {
    if pieces == [] then []
    else if |pieces| == 1 then pieces[0]
    else pieces[0] + [sep] + Join(pieces[1..], sep)
  }

  lemma ConcatAssociates<T>(a: seq<T>, b: seq<T>, c: seq<T>)
    ensures a + (b + c) == (a + b) + c
  {
  }

  lemma {:induction false} JoinSplit<T>(s: seq<T>, sep: T)
    ensures Join(Split(s, sep), sep) == s
  {
    if s == [] {
    } else {
      JoinSplit(s[1..], sep);
      var rest := Split(s[1..], sep);
      if s[0] != sep {
        var whole := [[s[0]] + rest[0]] + rest[1..];
        assert whole[1..] == rest[1..];
        assert s == [s[0]] + s[1..];
        if |rest| > 1 {
          assert Join(whole, sep) == [s[0]] + (rest[0] + [sep] + Join(rest[1..], sep));
        }
      } else {
        assert ([[]] + rest)[1..] == rest;
      }
    }
  }

  lemma {:induction false} SplitHead<T>(head: seq<T>, tail: seq<T>, sep: T)
    requires Free(head, sep)
    ensures Split(head + [sep] + tail, sep) == [head] + Split(tail, sep)
  {
    var s := head + [sep] + tail;
    if head == [] {
      assert s[1..] == tail;
    } else {
      assert s[1..] == head[1..] + [sep] + tail;
      SplitHead(head[1..], tail, sep);
      assert head == [head[0]] + head[1..];
    }
  }

  function PrependTo<T>(x: T, pieces: seq<seq<T>>): seq<seq<T>>
    requires pieces != []
  {
    [[x] + pieces[0]] + pieces[1..]
  }

  lemma PrependToConcat<T>(x: T, pieces: seq<seq<T>>, more: seq<seq<T>>)
    requires pieces != []
    ensures PrependTo(x, pieces + more) == PrependTo(x, pieces) + more
  {
  }

  lemma {:induction false} SplitConcat<T>(a: seq<T>, b: seq<T>, sep: T)
    ensures Split(a + [sep] + b, sep) == Split(a, sep) + Split(b, sep)
  {
    var s := a + [sep] + b;
    if a == [] {
      assert s[1..] == b;
    } else {
      var rest, tail := Split(a[1..], sep), Split(b, sep);
      SplitConcat(a[1..], b, sep);
      assert s[0] == a[0] && s[1..] == a[1..] + [sep] + b;
      if a[0] == sep {
        assert Split(s, sep) == [[]] + (rest + tail);
      } else {
        PrependToConcat(a[0], rest, tail);
        assert Split(s, sep) == PrependTo(a[0], rest + tail);
        assert Split(a, sep) == PrependTo(a[0], rest);
      }
    }
  }

  lemma {:induction false} SplitWhole<T>(s: seq<T>, sep: T)
    requires Free(s, sep)
    ensures Split(s, sep) == [s]
  {
    if s == [] {
    } else {
      SplitWhole(s[1..], sep);
      assert s == [s[0]] + s[1..];
    }
  }

  lemma {:induction false} SplitJoin<T>(pieces: seq<seq<T>>, sep: T)
    requires pieces != [] && forall i :: 0 <= i < |pieces| ==> Free(pieces[i], sep)
    ensures Split(Join(pieces, sep), sep) == pieces
  {
    if |pieces| == 1 {
      SplitWhole(pieces[0], sep);
    } else {
      SplitJoin(pieces[1..], sep);
      SplitHead(pieces[0], Join(pieces[1..], sep), sep);
      assert pieces == [pieces[0]] + pieces[1..];
    }
  }

  function LowerChar(c: char): char {
    if 'A' <= c <= 'Z' then (c as int + 32) as char else c
  }

  function UpperChar(c: char): char {
    if 'a' <= c <= 'z' then (c as int - 32) as char else c
  }

  function Lower(s: string): (r: string)
    ensures |r| == |s| && forall i :: 0 <= i < |s| ==> r[i] == LowerChar(s[i])
  {
    seq(|s|, i requires 0 <= i < |s| => LowerChar(s[i]))
  }

  function Upper(s: string): (r: string)
    ensures |r| == |s| && forall i :: 0 <= i < |s| ==> r[i] == UpperChar(s[i])
  {
    seq(|s|, i requires 0 <= i < |s| => UpperChar(s[i]))
  }

  predicate EqIgnoreCase(a: string, b: string) {
    Lower(a) == Lower(b)
  }

  lemma LowerConcat(a: string, b: string)
    ensures Lower(a + b) == Lower(a) + Lower(b)
  {
  }

  lemma LowerIdempotent(s: string)
    ensures Lower(Lower(s)) == Lower(s)
  {
  }

  /** Unicode White_Space, the class that trimming removes. */
  predicate IsSpace(c: char) {
    '\U{9}' <= c <= '\U{D}' || c == ' ' || c == '\U{85}' || c == '\U{A0}' || c == '\U{1680}'
    || '\U{2000}' <= c <= '\U{200A}' || c == '\U{2028}' || c == '\U{2029}' || c == '\U{202F}'
    || c == '\U{205F}' || c == '\U{3000}'
  }

  function TrimStart(s: string): string {
    if s != [] && IsSpace(s[0]) then TrimStart(s[1..]) else s
  }

  function TrimEnd(s: string): string {
    if s != [] && IsSpace(s[|s| - 1]) then TrimEnd(s[..|s| - 1]) else s
  }

  function Trim(s: string): string {
    TrimEnd(TrimStart(s))
  }

  predicate Trimmed(s: string) {
    s != [] ==> !IsSpace(s[0]) && !IsSpace(s[|s| - 1])
  }

  lemma TrimEndIsPrefix(s: string)
    ensures TrimEnd(s) <= s
    ensures TrimEnd(s) != [] ==> !IsSpace(TrimEnd(s)[|TrimEnd(s)| - 1])
  {
  }

  lemma {:induction false} TrimStartIsSuffix(s: string) returns (k: nat)
    ensures k <= |s| && TrimStart(s) == s[k..]
    ensures TrimStart(s) != [] ==> !IsSpace(TrimStart(s)[0])
  {
    k := 0;
    if s != [] && IsSpace(s[0]) {
      k := TrimStartIsSuffix(s[1..]);
      k := k + 1;
    }
  }

  /** Trimming yields a trimmed piece of the text, and changes nothing exactly when it is trimmed. */
  lemma TrimSpec(s: string)
    ensures Trimmed(Trim(s))
    ensures forall c :: c in Trim(s) ==> c in s
    ensures Trim(s) == s <==> Trimmed(s)
  {
    var k := TrimStartIsSuffix(s);
    TrimEndIsPrefix(TrimStart(s));
    var t := TrimStart(s);
    if Trim(s) != [] {
      assert Trim(s)[0] == t[0];
    }
  }

  predicate EndsWith(s: string, suffix: string) {
    |suffix| <= |s| && s[|s| - |suffix|..] == suffix
  }

  predicate Contains(s: string, needle: string) {
    needle <= s || (s != [] && Contains(s[1..], needle))
  }

  // What the tests above mean

  const LOWER_LETTERS := "abcdefghijklmnopqrstuvwxyz"
  const UPPER_LETTERS := "ABCDEFGHIJKLMNOPQRSTUVWXYZ"
  const DIGITS := "0123456789"

  lemma LetterAt(i: nat)
    requires i < 26
    ensures LOWER_LETTERS[i] == (97 + i) as char && UPPER_LETTERS[i] == (65 + i) as char
  {
  }

  lemma DigitAt(i: nat)
    requires i < 10
    ensures DIGITS[i] == (48 + i) as char
  {
  }

  lemma LowerAlphabet(c: char)
    ensures c in LOWER_LETTERS <==> 'a' <= c <= 'z'
  {
    if c in LOWER_LETTERS {
      var i :| 0 <= i < 26 && LOWER_LETTERS[i] == c;
      LetterAt(i);
    }
    if 'a' <= c <= 'z' {
      LetterAt(c as int - 97);
      assert LOWER_LETTERS[c as int - 97] == c;
    }
  }

  lemma UpperAlphabet(c: char)
    ensures c in UPPER_LETTERS <==> 'A' <= c <= 'Z'
  {
    if c in UPPER_LETTERS {
      var i :| 0 <= i < 26 && UPPER_LETTERS[i] == c;
      LetterAt(i);
    }
    if 'A' <= c <= 'Z' {
      LetterAt(c as int - 65);
      assert UPPER_LETTERS[c as int - 65] == c;
    }
  }

  lemma DigitAlphabet(c: char)
    ensures c in DIGITS <==> '0' <= c <= '9'
  {
    if c in DIGITS {
      var i :| 0 <= i < 10 && DIGITS[i] == c;
      DigitAt(i);
    }
    if '0' <= c <= '9' {
      DigitAt(c as int - 48);
      assert DIGITS[c as int - 48] == c;
    }
  }

  /** The three alphabets are ranges of characters. */
  lemma Alphabets(c: char)
    ensures c in LOWER_LETTERS <==> 'a' <= c <= 'z'
    ensures c in UPPER_LETTERS <==> 'A' <= c <= 'Z'
    ensures c in DIGITS <==> '0' <= c <= '9'
  {
    LowerAlphabet(c);
    UpperAlphabet(c);
    DigitAlphabet(c);
  }

  /** Folding exchanges the letters at the same place of the two alphabets and leaves every other character. */
  lemma CaseFolding(c: char)
    ensures forall i :: 0 <= i < 26 ==>
      LowerChar(UPPER_LETTERS[i]) == LOWER_LETTERS[i] && UpperChar(LOWER_LETTERS[i]) == UPPER_LETTERS[i]
    ensures c !in UPPER_LETTERS ==> LowerChar(c) == c
    ensures c !in LOWER_LETTERS ==> UpperChar(c) == c
  {
    forall i | 0 <= i < 26
      ensures LowerChar(UPPER_LETTERS[i]) == LOWER_LETTERS[i] && UpperChar(LOWER_LETTERS[i]) == UPPER_LETTERS[i]
    {
      LetterAt(i);
    }
    Alphabets(c);
  }

  lemma {:induction false} ContainsExactly(s: string, needle: string)
    ensures Contains(s, needle) <==> exists a, b :: s == a + needle + b
  {
    if needle <= s {
      assert s == "" + needle + s[|needle|..];
    } else if s != [] {
      ContainsExactly(s[1..], needle);
      if Contains(s[1..], needle) {
        var a, b :| s[1..] == a + needle + b;
        assert s == ([s[0]] + a) + needle + b;
      }
      if exists a, b :: s == a + needle + b {
        var a, b :| s == a + needle + b;
        if a != "" {
          assert s[1..] == a[1..] + needle + b;
        }
      }
    }
  }

  lemma EndsWithExactly(s: string, suffix: string)
    ensures EndsWith(s, suffix) <==> exists a :: s == a + suffix
  {
    if EndsWith(s, suffix) {
      assert s == s[..|s| - |suffix|] + suffix;
    }
  }

  ghost predicate Blank(s: string) {
    forall i :: 0 <= i < |s| ==> IsSpace(s[i])
  }

  lemma {:induction false} TrimEndParts(s: string) returns (b: string)
    ensures s == TrimEnd(s) + b && Blank(b)
  {
    b := "";
    if s != [] && IsSpace(s[|s| - 1]) {
      b := TrimEndParts(s[..|s| - 1]);
      b := b + [s[|s| - 1]];
    }
  }

  lemma {:induction false} TrimStartParts(s: string) returns (a: string)
    ensures s == a + TrimStart(s) && Blank(a)
  {
    a := "";
    if s != [] && IsSpace(s[0]) {
      a := TrimStartParts(s[1..]);
      a := [s[0]] + a;
    }
  }

  /** Trimming removes white space at both ends, all of it and nothing else. */
  lemma TrimParts(s: string) returns (a: string, b: string)
    ensures s == a + Trim(s) + b && Blank(a) && Blank(b) && Trimmed(Trim(s))
    ensures Trim(s) == "" <==> Blank(s)
  {
    a := TrimStartParts(s);
    b := TrimEndParts(TrimStart(s));
    TrimSpec(s);
    assert s == a + Trim(s) + b;
    if Trim(s) != "" {
      assert s[|a|] == Trim(s)[0];
    }
  }
}
