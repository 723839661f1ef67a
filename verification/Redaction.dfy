/** Redaction of sensitive values in `key=value&...` text, and the normalised query. */
module Redaction {
  import opened Text

  const REDACTED := "[redacted]"

  const SENSITIVE_KEYS: seq<string> :=
    ["password", "passwd", "token", "secret", "authorization", "api_key", "apikey", "session", "cookie", "card"]

  predicate IsAlphanumeric(c: char) {
    '0' <= c <= '9' || 'A' <= c <= 'Z' || 'a' <= c <= 'z'
  }

  function WordChars(key: string): string {
    if key == "" then ""
    else (if IsAlphanumeric(key[0]) || key[0] == '_' then [key[0]] else []) + WordChars(key[1..])
  }

  /** Decided on the letters, digits and underscores of the key only, in lower case. */
  predicate IsSensitiveKey(key: string) {
    exists i :: 0 <= i < |SENSITIVE_KEYS| && Contains(Lower(WordChars(key)), SENSITIVE_KEYS[i])
  }

  lemma {:induction false} WordCharsConcat(a: string, b: string)
    ensures WordChars(a + b) == WordChars(a) + WordChars(b)
  {
    if a == "" {
      assert a + b == b;
    } else {
      assert (a + b)[0] == a[0] && (a + b)[1..] == a[1..] + b;
      WordCharsConcat(a[1..], b);
      var head := if IsAlphanumeric(a[0]) || a[0] == '_' then [a[0]] else [];
      ConcatAssociates(head, WordChars(a[1..]), WordChars(b));
    }
  }

  /** Letters, digits and underscores of a key count, each in its place; no other character does. */
  lemma WordCharsExactly(c: char)
    ensures WordChars([c]) == if c in LOWER_LETTERS || c in UPPER_LETTERS || c in DIGITS || c == '_' then [c] else ""
  {
    Alphabets(c);
    assert [c][1..] == "";
  }

  /** The words that make a key sensitive. */
  ghost predicate IsSecretWord(w: string) {
    w in {"password", "passwd", "token", "secret", "authorization", "api_key", "apikey", "session", "cookie", "card"}
  }

  lemma SecretWords(w: string)
    ensures w in SENSITIVE_KEYS <==> IsSecretWord(w)
  {
  }

  /** A key is sensitive exactly when one of the words stands somewhere in it, punctuation and case aside. */
  lemma SensitiveExactly(key: string)
    ensures IsSensitiveKey(key) <==>
      exists w, a, b :: IsSecretWord(w) && Lower(WordChars(key)) == a + w + b
  {
    var text := Lower(WordChars(key));
    if IsSensitiveKey(key) {
      var i :| 0 <= i < |SENSITIVE_KEYS| && Contains(text, SENSITIVE_KEYS[i]);
      ContainsExactly(text, SENSITIVE_KEYS[i]);
      var a, b :| text == a + SENSITIVE_KEYS[i] + b;
      SecretWords(SENSITIVE_KEYS[i]);
    }
    if exists w, a, b :: IsSecretWord(w) && text == a + w + b {
      var w, a, b :| IsSecretWord(w) && text == a + w + b;
      SecretWords(w);
      var i :| 0 <= i < |SENSITIVE_KEYS| && SENSITIVE_KEYS[i] == w;
      ContainsExactly(text, w);
    }
  }

  datatype Pair = Pair(key: string, value: Option<string>)

  const NO_PAIR := Pair("", None)

  /** The text before the first `=`, and the text after it if there is one. */
  function ParsePair(piece: string): (p: Pair)
    ensures Free(p.key, '=')
  {
    if piece == "" then NO_PAIR
    else if piece[0] == '=' then Pair("", Some(piece[1..]))
    else var rest := ParsePair(piece[1..]); rest.(key := [piece[0]] + rest.key)
  }

  function PrintPair(p: Pair): string {
    if p.value.None? then p.key else p.key + "=" + p.value.value
  }

  function ParseAll(pieces: seq<string>): (ps: seq<Pair>)
    ensures |ps| == |pieces| && forall i :: 0 <= i < |ps| ==> ps[i] == ParsePair(pieces[i])
  {
    seq(|pieces|, i requires 0 <= i < |pieces| => ParsePair(pieces[i]))
  }

  function PrintAll(ps: seq<Pair>): (pieces: seq<string>)
    ensures |pieces| == |ps| && forall i :: 0 <= i < |ps| ==> pieces[i] == PrintPair(ps[i])
  {
    seq(|ps|, i requires 0 <= i < |ps| => PrintPair(ps[i]))
  }

  function Parse(text: string): seq<Pair> {
    ParseAll(Split(text, '&'))
  }

  predicate IsSecret(p: Pair) {
    p.value.Some? && IsSensitiveKey(Lower(p.key))
  }

  function RedactPair(p: Pair): Pair {
    if IsSecret(p) then Pair(p.key, Some(REDACTED)) else p
  }

  function RedactAll(ps: seq<Pair>): (rs: seq<Pair>)
    ensures |rs| == |ps| && forall i :: 0 <= i < |ps| ==> rs[i] == RedactPair(ps[i])
  {
    seq(|ps|, i requires 0 <= i < |ps| => RedactPair(ps[i]))
  }

  /** One pair appended to the output: a separator is written only once something has been. */
  function Emit(out: string, p: Pair): string {
    (if out != "" then out + "&" else out) + PrintPair(p)
  }

  function EmitAll(out: string, ps: seq<Pair>): string
    decreases ps
  {
    if ps == [] then out else EmitAll(Emit(out, ps[0]), ps[1..])
  }

  function Redact(text: string): string {
    EmitAll("", RedactAll(Parse(text)))
  }

  function DropEmpty(ps: seq<Pair>): seq<Pair> {
    if ps != [] && ps[0] == NO_PAIR then DropEmpty(ps[1..]) else ps
  }

  /** The pairs that printing and parsing can carry. */
  ghost predicate Carried(ps: seq<Pair>) {
    forall i :: 0 <= i < |ps| ==>
      Free(ps[i].key, '&') && Free(ps[i].key, '=') && (ps[i].value.Some? ==> Free(ps[i].value.value, '&'))
  }

  lemma {:induction false} PrintParsedPair(piece: string)
    ensures PrintPair(ParsePair(piece)) == piece
  {
    if piece == "" {
    } else {
      assert piece == [piece[0]] + piece[1..];
      if piece[0] != '=' {
        PrintParsedPair(piece[1..]);
      }
    }
  }

  /** A pair is what stands before the first `=`, and what stands after it if there is one. */
  lemma PairExactly(piece: string)
    ensures var p := ParsePair(piece);
      && '=' !in p.key
      && piece == (if p.value.Some? then p.key + "=" + p.value.value else p.key)
      && (p.value.None? <==> '=' !in piece)
  {
    PrintParsedPair(piece);
    var p := ParsePair(piece);
    if p.value.Some? {
      assert piece[|p.key|] == '=';
    }
  }

  lemma {:induction false} ParsePairCarries(piece: string)
    requires Free(piece, '&')
    ensures var p := ParsePair(piece); Free(p.key, '&') && (p.value.Some? ==> Free(p.value.value, '&'))
  {
    if piece != "" && piece[0] != '=' {
      ParsePairCarries(piece[1..]);
    }
  }

  lemma {:induction false} ParsePrintedPair(p: Pair)
    requires Free(p.key, '=')
    ensures ParsePair(PrintPair(p)) == p
    decreases |p.key|
  {
    var piece := PrintPair(p);
    if p.key == "" {
      if p.value.Some? {
        assert piece == "=" + p.value.value;
      }
    } else {
      var rest := p.(key := p.key[1..]);
      ParsePrintedPair(rest);
      assert piece[1..] == PrintPair(rest);
      assert p.key == [p.key[0]] + rest.key;
    }
  }

  lemma ParseCarries(text: string)
    ensures Carried(Parse(text)) && Carried(RedactAll(Parse(text)))
  {
    var pieces := Split(text, '&');
    forall i | 0 <= i < |pieces|
      ensures var p := Parse(text)[i]; Free(p.key, '&') && (p.value.Some? ==> Free(p.value.value, '&'))
    {
      ParsePairCarries(pieces[i]);
    }
  }

  lemma ParsePrinted(ps: seq<Pair>)
    requires Carried(ps) && ps != []
    ensures Parse(Join(PrintAll(ps), '&')) == ps
  {
    SplitJoin(PrintAll(ps), '&');
    forall i | 0 <= i < |ps|
      ensures ParsePair(PrintPair(ps[i])) == ps[i]
    {
      ParsePrintedPair(ps[i]);
    }
  }

  lemma {:induction false} EmitContinues(out: string, ps: seq<Pair>)
    requires out != ""
    ensures EmitAll(out, ps) == Join([out] + PrintAll(ps), '&')
    decreases ps
  {
    if ps == [] {
      assert [out] + PrintAll(ps) == [out];
    } else {
      var piece, rest := PrintPair(ps[0]), PrintAll(ps[1..]);
      EmitContinues(out + "&" + piece, ps[1..]);
      JoinFirstTwo(out, piece, rest);
      assert [out] + PrintAll(ps) == [out, piece] + rest;
    }
  }

  lemma {:induction false} EmitIsJoin(ps: seq<Pair>)
    ensures EmitAll("", ps) == Join(PrintAll(DropEmpty(ps)), '&')
  {
    if ps == [] {
    } else {
      if ps[0] == NO_PAIR {
        EmitIsJoin(ps[1..]);
      } else {
        assert Emit("", ps[0]) == PrintPair(ps[0]) != "";
        EmitContinues(PrintPair(ps[0]), ps[1..]);
        assert PrintAll(ps) == [PrintPair(ps[0])] + PrintAll(ps[1..]);
      }
    }
  }

  lemma JoinFirstTwo(a: string, b: string, rest: seq<string>)
    ensures Join([a + "&" + b] + rest, '&') == Join([a, b] + rest, '&')
  {
    var left, right := [a + "&" + b] + rest, [a, b] + rest;
    assert left[1..] == rest && right[1..] == [b] + rest && ([b] + rest)[1..] == rest;
    if rest == [] {
      assert right == [a, b] && left == [a + "&" + b];
    } else {
      assert Join([b] + rest, '&') == b + "&" + Join(rest, '&');
      assert Join(left, '&') == (a + "&" + b) + "&" + Join(rest, '&');
      assert Join(right, '&') == a + "&" + (b + "&" + Join(rest, '&'));
    }
  }

  lemma {:induction false} DropEmptyAfterRedact(ps: seq<Pair>)
    ensures DropEmpty(RedactAll(ps)) == RedactAll(DropEmpty(ps))
    ensures Carried(ps) ==> Carried(DropEmpty(ps))
  {
    if ps != [] && ps[0] == NO_PAIR {
      DropEmptyAfterRedact(ps[1..]);
      assert RedactAll(ps)[1..] == RedactAll(ps[1..]);
    }
  }

  lemma {:induction false} DropEmptyTwice(ps: seq<Pair>)
    ensures DropEmpty(DropEmpty(ps)) == DropEmpty(ps)
  {
    if ps != [] && ps[0] == NO_PAIR {
      DropEmptyTwice(ps[1..]);
    }
  }

  /** The output parses to the input's pairs, leading empty pairs aside, with only the secret values replaced. */
  lemma RedactedPairs(text: string)
    ensures var shown := RedactAll(DropEmpty(Parse(text)));
      && Parse(Redact(text)) == (if shown == [] then [NO_PAIR] else shown)
      && DropEmpty(Parse(Redact(text))) == shown
    ensures var before, after := DropEmpty(Parse(text)), DropEmpty(Parse(Redact(text)));
      && |after| == |before|
      && forall i :: 0 <= i < |before| ==>
           && after[i].key == before[i].key
           && after[i].value == if before[i].value.Some? && IsSensitiveKey(Lower(before[i].key)) then Some("[redacted]")
                                else before[i].value
  {
    var ps := RedactAll(Parse(text));
    ParseCarries(text);
    EmitIsJoin(ps);
    DropEmptyAfterRedact(Parse(text));
    DropEmptyAfterRedact(ps);
    var shown := DropEmpty(ps);
    DropEmptyTwice(ps);
    if shown != [] {
      ParsePrinted(shown);
    } else {
      assert PrintAll(shown) == [];
      assert Parse("") == [NO_PAIR] && DropEmpty([NO_PAIR]) == [];
    }
  }

  lemma RedactAllTwice(ps: seq<Pair>)
    ensures RedactAll(RedactAll(ps)) == RedactAll(ps)
  {
  }

  /** The output is determined by the pairs it shows. */
  lemma RedactFromPairs(a: string, b: string)
    requires RedactAll(DropEmpty(Parse(a))) == RedactAll(DropEmpty(Parse(b)))
    ensures Redact(a) == Redact(b)
  {
    DropEmptyAfterRedact(Parse(a));
    DropEmptyAfterRedact(Parse(b));
    EmitIsJoin(RedactAll(Parse(a)));
    EmitIsJoin(RedactAll(Parse(b)));
  }

  lemma RedactIsIdempotent(text: string)
    ensures Redact(Redact(text)) == Redact(text)
  {
    RedactedPairs(text);
    RedactAllTwice(DropEmpty(Parse(text)));
    RedactFromPairs(Redact(text), text);
  }

  /** The same keys in the same order, values present together, and equal unless the key is sensitive. */
  ghost predicate SameButSecrets(ps: seq<Pair>, qs: seq<Pair>) {
    && |ps| == |qs|
    && forall i :: 0 <= i < |ps| ==>
         && ps[i].key == qs[i].key
         && (ps[i].value.Some? <==> qs[i].value.Some?)
         && (ps[i].value == qs[i].value || IsSensitiveKey(Lower(ps[i].key)))
  }

  lemma RedactedAlike(ps: seq<Pair>, qs: seq<Pair>)
    ensures RedactAll(ps) == RedactAll(qs) <==> SameButSecrets(ps, qs)
  {
    if RedactAll(ps) == RedactAll(qs) {
      forall i | 0 <= i < |ps|
        ensures SameButSecrets([ps[i]], [qs[i]])
      {
        assert RedactPair(ps[i]) == RedactAll(ps)[i] == RedactAll(qs)[i] == RedactPair(qs[i]);
      }
      assert forall i :: 0 <= i < |ps| ==> SameButSecrets([ps[i]], [qs[i]]) && [ps[i]][0] == ps[i] && [qs[i]][0] == qs[i];
    }
  }

  /** Two texts redact alike exactly when, leading empty pairs aside, they differ in secret values only. */
  lemma RedactionHidesExactlySecrets(a: string, b: string)
    ensures Redact(a) == Redact(b) <==> SameButSecrets(DropEmpty(Parse(a)), DropEmpty(Parse(b)))
  {
    RedactedPairs(a);
    RedactedPairs(b);
    RedactedAlike(DropEmpty(Parse(a)), DropEmpty(Parse(b)));
    if RedactAll(DropEmpty(Parse(a))) == RedactAll(DropEmpty(Parse(b))) {
      RedactFromPairs(a, b);
    }
  }

  /** In particular no value of a sensitive key shows, wherever in the text it stands. */
  lemma SecretValueDoesNotShow(before: string, key: string, v: string, w: string, after: string)
    requires IsSensitiveKey(Lower(key)) && Free(key, '&') && Free(key, '=') && Free(v, '&') && Free(w, '&')
    ensures Redact(before + "&" + (key + "=" + v) + "&" + after) == Redact(before + "&" + (key + "=" + w) + "&" + after)
  {
    var p, q := Pair(key, Some(v)), Pair(key, Some(w));
    ParseAround(before, p, after);
    ParseAround(before, q, after);
    RedactedAround(Parse(before), p, q, Parse(after));
  }

  lemma RedactedAround(before: seq<Pair>, p: Pair, q: Pair, after: seq<Pair>)
    requires RedactPair(p) == RedactPair(q)
    ensures RedactAll(before + [p] + after) == RedactAll(before + [q] + after)
  {
  }

  lemma ParseConcat(a: string, b: string)
    ensures Parse(a + ['&'] + b) == Parse(a) + Parse(b)
  {
    SplitConcat(a, b, '&');
  }

  lemma ParsePiece(p: Pair)
    requires Free(p.key, '=') && Free(PrintPair(p), '&')
    ensures Parse(PrintPair(p)) == [p]
  {
    SplitWhole(PrintPair(p), '&');
    ParsePrintedPair(p);
  }

  lemma ParseAround(before: string, p: Pair, after: string)
    requires Free(p.key, '=') && Free(PrintPair(p), '&')
    ensures Parse(before + "&" + PrintPair(p) + "&" + after) == Parse(before) + [p] + Parse(after)
  {
    var piece := PrintPair(p);
    ParsePiece(p);
    ParseConcat(before, piece);
    ParseConcat(before + ['&'] + piece, after);
    assert before + "&" + piece + "&" + after == (before + ['&'] + piece) + ['&'] + after;
  }

  method RedactSensitiveText(value: string) returns (out: string)
    ensures out == Redact(value)
  {
    out := "";
    var pieces := Split(value, '&');
    ghost var all := RedactAll(Parse(value));
    for i := 0 to |pieces|
      invariant EmitAll(out, all[i..]) == Redact(value)
    {
      assert all[i..][0] == all[i] && all[i..][1..] == all[i + 1..];
      var pair := ParsePair(pieces[i]);
      if out != "" {
        out := out + "&";
      }
      var shown := pair.key;
      if pair.value.Some? {
        shown := shown + "=" + if IsSensitiveKey(Lower(pair.key)) then REDACTED else pair.value.value;
      }
      assert shown == PrintPair(all[i]);
      out := out + shown;
    }
  }

  // The query, for any decoder of keys and values

  function NormalizePair(p: Pair, decode: string -> string): Option<(string, string)> {
    var key := Lower(decode(p.key));
    if key == "" then None
    else if IsSensitiveKey(key) then Some((key, REDACTED))
    else Some((key, decode(if p.value.Some? then p.value.value else "")))
  }

  function NormalizePairs(ps: seq<Pair>, decode: string -> string): seq<(string, string)> {
    if ps == [] then []
    else
      var first := NormalizePair(ps[0], decode);
      (if first.Some? then [first.value] else []) + NormalizePairs(ps[1..], decode)
  }

  function NormalizeQuery(raw: Option<string>, maxParams: nat, decode: string -> string): seq<(string, string)> {
    if raw.None? then []
    else
      var ps := Parse(raw.value);
      NormalizePairs(if |ps| <= maxParams then ps else ps[..maxParams], decode)
  }

  /** Within the parameter limit the result depends on no value whose decoded key is sensitive. */
  ghost predicate SameButDecodedSecrets(ps: seq<Pair>, qs: seq<Pair>, maxParams: nat, decode: string -> string) {
    && |ps| == |qs|
    && forall i :: 0 <= i < |ps| && i < maxParams ==>
         ps[i].key == qs[i].key && (ps[i].value == qs[i].value || IsSensitiveKey(Lower(decode(ps[i].key))))
  }

  lemma {:induction false} NormalizedPairsHideSecrets(ps: seq<Pair>, qs: seq<Pair>, decode: string -> string)
    requires SameButDecodedSecrets(ps, qs, |ps|, decode)
    ensures NormalizePairs(ps, decode) == NormalizePairs(qs, decode)
    ensures |NormalizePairs(ps, decode)| <= |ps|
    ensures forall kv :: kv in NormalizePairs(ps, decode) && IsSensitiveKey(kv.0) ==> kv.1 == REDACTED
  {
    if ps == [] {
    } else {
      NormalizedPairsHideSecrets(ps[1..], qs[1..], decode);
    }
  }

  /** The key under which a pair of the query is reported. */
  function QueryKey(p: Pair, decode: string -> string): string {
    Lower(decode(p.key))
  }

  /** The entry reports the pair: its key, and its value unless the key is sensitive. */
  ghost predicate Reports(entry: (string, string), p: Pair, decode: string -> string) {
    && entry.0 == QueryKey(p, decode)
    && (IsSensitiveKey(entry.0) ==> entry.1 == "[redacted]")
    && (!IsSensitiveKey(entry.0) ==> entry.1 == decode(if p.value.Some? then p.value.value else ""))
  }

  /** The result reports, in order, the pairs at the positions `kept`. */
  ghost predicate ReportsAt(r: seq<(string, string)>, ps: seq<Pair>, kept: seq<nat>, decode: string -> string) {
    && |kept| == |r|
    && (forall j :: 0 <= j < |r| ==> kept[j] < |ps| && Reports(r[j], ps[kept[j]], decode))
    && (forall j, k :: 0 <= j < k < |r| ==> kept[j] < kept[k])
  }

  lemma ReportsLater(r: seq<(string, string)>, ps: seq<Pair>, rest: seq<nat>, decode: string -> string)
    requires ps != [] && ReportsAt(r, ps[1..], rest, decode)
    ensures ReportsAt(r, ps, Shifted(rest), decode)
  {
  }

  lemma ReportsFirst(entry: (string, string), r: seq<(string, string)>, ps: seq<Pair>, kept: seq<nat>, decode: string -> string)
    requires ps != [] && Reports(entry, ps[0], decode) && ReportsAt(r, ps, kept, decode)
    requires forall j :: 0 <= j < |kept| ==> kept[j] > 0
    ensures ReportsAt([entry] + r, ps, [0] + kept, decode)
  {
  }

  /** The positions of the pairs with a key. */
  function Kept(ps: seq<Pair>, decode: string -> string): seq<nat> {
    if ps == [] then [] else (if QueryKey(ps[0], decode) != "" then [0] else []) + Shifted(Kept(ps[1..], decode))
  }

  lemma KeptFirst(ps: seq<Pair>, decode: string -> string, i: nat)
    requires ps != []
    ensures i in Kept(ps, decode) <==>
      (i == 0 && QueryKey(ps[0], decode) != "") || (i > 0 && i - 1 in Kept(ps[1..], decode))
  {
    ShiftedMember(Kept(ps[1..], decode), i);
    var first := if QueryKey(ps[0], decode) != "" then [0] else [];
    assert i in first + Shifted(Kept(ps[1..], decode)) <==> i in first || i in Shifted(Kept(ps[1..], decode));
  }

  lemma {:induction false} KeptMembers(ps: seq<Pair>, decode: string -> string, i: nat)
    ensures i in Kept(ps, decode) <==> i < |ps| && QueryKey(ps[i], decode) != ""
  {
    if ps == [] {
    } else {
      KeptFirst(ps, decode, i);
      if i > 0 {
        KeptMembers(ps[1..], decode, i - 1);
      }
    }
  }

  lemma {:induction false} KeptReports(ps: seq<Pair>, decode: string -> string)
    ensures ReportsAt(NormalizePairs(ps, decode), ps, Kept(ps, decode), decode)
  {
    if ps == [] {
    } else {
      var rest, later := Kept(ps[1..], decode), NormalizePairs(ps[1..], decode);
      KeptReports(ps[1..], decode);
      ReportsLater(later, ps, rest, decode);
      var first := NormalizePair(ps[0], decode);
      if first.Some? {
        ReportsFirst(first.value, later, ps, Shifted(rest), decode);
        assert NormalizePairs(ps, decode) == [first.value] + later;
        assert Kept(ps, decode) == [0] + Shifted(rest);
      } else {
        assert NormalizePairs(ps, decode) == later;
        assert Kept(ps, decode) == Shifted(rest);
      }
    }
  }

  function Shifted(s: seq<nat>): (r: seq<nat>)
    ensures |r| == |s| && forall j :: 0 <= j < |s| ==> r[j] == s[j] + 1
  {
    seq(|s|, j requires 0 <= j < |s| => s[j] + 1)
  }

  lemma ShiftedMember(s: seq<nat>, i: nat)
    ensures i in Shifted(s) <==> i > 0 && i - 1 in s
  {
    if i > 0 && i - 1 in s {
      var j :| 0 <= j < |s| && s[j] == i - 1;
      assert Shifted(s)[j] == i;
    }
  }

  /**
   * The normalised query reports, in order, exactly those of the first `maxParams` pairs whose decoded
   * key is not empty: each under its key in lower case, with its value unless the key is sensitive.
   */
  lemma QueryReportsExactly(raw: Option<string>, maxParams: nat, decode: string -> string) returns (kept: seq<nat>)
    ensures var ps := if raw.Some? then Parse(raw.value) else [];
      && ReportsAt(NormalizeQuery(raw, maxParams, decode), ps, kept, decode)
      && forall i: nat :: i in kept <==> i < |ps| && i < maxParams && QueryKey(ps[i], decode) != ""
  {
    if raw.None? {
      kept := [];
    } else {
      var ps := Parse(raw.value);
      var taken := if |ps| <= maxParams then ps else ps[..maxParams];
      kept := Kept(taken, decode);
      KeptReports(taken, decode);
      forall i: nat
        ensures i in kept <==> i < |ps| && i < maxParams && QueryKey(ps[i], decode) != ""
      {
        KeptMembers(taken, decode, i);
      }
    }
  }

  lemma NormalizedQueryHidesSecrets(a: string, b: string, maxParams: nat, decode: string -> string)
    requires SameButDecodedSecrets(Parse(a), Parse(b), maxParams, decode)
    ensures var r := NormalizeQuery(Some(a), maxParams, decode);
      && r == NormalizeQuery(Some(b), maxParams, decode)
      && |r| <= maxParams
      && forall kv :: kv in r && IsSensitiveKey(kv.0) ==> kv.1 == "[redacted]"
  {
    var ps, qs := Parse(a), Parse(b);
    var n := if |ps| <= maxParams then |ps| else maxParams;
    NormalizedPairsHideSecrets(ps[..n], qs[..n], decode);
    assert ps[..|ps|] == ps && qs[..|qs|] == qs;
  }
}
