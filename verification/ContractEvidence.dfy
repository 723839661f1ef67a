/** Response contracts: the printed evidence of a mismatch, and the contract rebuilt from it. */
module ContractEvidence {
  import opened Text
  import opened RouteMatching

  datatype Contract = Contract(verb: string, path: string, status: nat, prefix: string, headers: seq<string>)

  datatype Response = Response(status: nat, contentType: string, hasHeader: string -> bool)

  datatype Evidence = Evidence(location: string, preview: string)

  // Printing

  function PrintNat(n: nat): string {
    var digit := [(n % 10 + '0' as int) as char];
    if n < 10 then digit else PrintNat(n / 10) + digit
  }

  function Missing(headers: seq<string>, hasHeader: string -> bool): (r: seq<string>)
    ensures |r| <= |headers| && forall h :: h in r ==> h in headers && !hasHeader(h)
    ensures r == headers <==> forall h :: h in headers ==> !hasHeader(h)
  {
    if headers == [] then []
    else
      var rest := Missing(headers[1..], hasHeader);
      if hasHeader(headers[0]) then rest else [headers[0]] + rest
  }

  /** The evidence of the mismatch finding, or none when the response keeps the contract. */
  function Check(c: Contract, r: Response): Option<seq<Evidence>> {
    var missing := Missing(c.headers, r.hasHeader);
    if r.status == c.status && c.prefix <= r.contentType && missing == [] then None
    else Some([
      Evidence("response.contract.status", "expected=" + PrintNat(c.status) + ", actual=" + PrintNat(r.status)),
      Evidence("response.contract.content_type", "expected_prefix=" + c.prefix + ", actual=" + r.contentType),
      Evidence("response.contract.missing_headers", Join(missing, ','))])
  }

  /** No mismatch is reported exactly when status, content type and every required header are as agreed. */
  lemma KeptExactly(c: Contract, r: Response)
    ensures Check(c, r) == None <==>
      && r.status == c.status
      && (exists rest :: r.contentType == c.prefix + rest)
      && forall h :: h in c.headers ==> r.hasHeader(h)
  {
    NothingMissing(c.headers, r.hasHeader);
    if c.prefix <= r.contentType {
      assert r.contentType == c.prefix + r.contentType[|c.prefix|..];
    }
  }

  lemma {:induction false} NothingMissing(headers: seq<string>, hasHeader: string -> bool)
    ensures Missing(headers, hasHeader) == [] <==> forall h :: h in headers ==> hasHeader(h)
  {
    if headers == [] {
    } else {
      NothingMissing(headers[1..], hasHeader);
      assert forall h :: h in headers <==> h == headers[0] || h in headers[1..];
    }
  }

  /** A header is missing exactly when it is required and absent, and the missing ones keep their order. */
  lemma {:induction false} MissingAppend(headers: seq<string>, h: string, hasHeader: string -> bool)
    ensures Missing(headers + [h], hasHeader) ==
      if hasHeader(h) then Missing(headers, hasHeader) else Missing(headers, hasHeader) + [h]
  {
    if headers == [] {
      assert [] + [h] == [h] && [h][1..] == [];
    } else {
      assert (headers + [h])[0] == headers[0] && (headers + [h])[1..] == headers[1..] + [h];
      MissingAppend(headers[1..], h, hasHeader);
      ConcatAssociates([headers[0]], Missing(headers[1..], hasHeader), [h]);
    }
  }

  /** Numbers are printed in decimal: the digits of the tens and then that of the units. */
  lemma PrintedInDecimal(n: nat, d: nat)
    requires d < 10
    ensures PrintNat(d) == [DIGITS[d]]
    ensures n > 0 ==> PrintNat(10 * n + d) == PrintNat(n) + [DIGITS[d]]
  {
    DigitAt(d);
    assert (10 * n + d) / 10 == n && (10 * n + d) % 10 == d;
  }

  // Parsing

  function DigitsValue(s: string): Option<nat> {
    if s == "" then Some(0)
    else
      var rest := DigitsValue(s[..|s| - 1]);
      var c := s[|s| - 1];
      if rest.None? || !IsDigit(c) then None else Some(10 * rest.value + (c as int - '0' as int))
  }

  /** The library's u16 reader: an optional plus sign, at least one digit, no overflow. */
  function ParseU16(s: string): Option<nat> {
    var digits := if "+" <= s then s[1..] else s;
    if digits == "" then None
    else
      var v := DigitsValue(digits);
      if v.Some? && v.value <= 65535 then v else None
  }

  function StripPrefix(s: string, prefix: string): Option<string> {
    if prefix <= s then Some(s[|prefix|..]) else None
  }

  function FirstField(preview: string, prefix: string): Option<string> {
    StripPrefix(Trim(Split(preview, ',')[0]), prefix)
  }

  function CleanList(pieces: seq<string>): seq<string> {
    if pieces == [] then []
    else if Trim(pieces[0]) == "" then CleanList(pieces[1..])
    else [Trim(pieces[0])] + CleanList(pieces[1..])
  }

  datatype Draft = Draft(status: Option<nat>, prefix: Option<string>, headers: seq<string>)

  const EMPTY_DRAFT := Draft(None, None, [])

  function Absorb(d: Draft, e: Evidence): Draft {
    if e.location == "response.contract.status" then
      var field := FirstField(e.preview, "expected=");
      if field.Some? then d.(status := ParseU16(field.value)) else d
    else if e.location == "response.contract.content_type" then
      var field := FirstField(e.preview, "expected_prefix=");
      if field.Some? then d.(prefix := field) else d
    else if e.location == "response.contract.missing_headers" && Trim(e.preview) != "" then
      d.(headers := CleanList(Split(e.preview, ',')))
    else d
  }

  function AbsorbAll(evidence: seq<Evidence>): Draft {
    if evidence == [] then EMPTY_DRAFT else Absorb(AbsorbAll(evidence[..|evidence| - 1]), evidence[|evidence| - 1])
  }

  /** The contract an operator approves from the event of a mismatch. */
  function Rebuild(verb: string, path: string, evidence: seq<Evidence>): Option<Contract> {
    var d := AbsorbAll(evidence);
    if d.status.None? || d.prefix.None? then None
    else Some(Contract(Upper(verb), NormalizeRuntimePath(CanonicalSecurityPath(path)), d.status.value, d.prefix.value, d.headers))
  }

  // Reading back what was printed

  lemma {:induction false} ParsePrintedNat(n: nat)
    ensures PrintNat(n) != "" && DigitsValue(PrintNat(n)) == Some(n)
    ensures forall i :: 0 <= i < |PrintNat(n)| ==> IsDigit(PrintNat(n)[i])
  {
    var s := PrintNat(n);
    assert s[..|s| - 1] == if n < 10 then "" else PrintNat(n / 10);
    if n >= 10 {
      ParsePrintedNat(n / 10);
    }
  }

  lemma DigitsArePlain(s: string)
    requires forall i :: 0 <= i < |s| ==> IsDigit(s[i])
    ensures Free(s, ',') && Trimmed(s) && !("+" <= s)
  {
  }

  lemma {:induction false} TrimEndAfter(a: string, b: string)
    requires a != "" && !IsSpace(a[|a| - 1])
    ensures TrimEnd(a + b) == a + TrimEnd(b)
  {
    if b == "" {
      assert a + b == a;
    } else if IsSpace(b[|b| - 1]) {
      assert (a + b)[..|a + b| - 1] == a + b[..|b| - 1];
      TrimEndAfter(a, b[..|b| - 1]);
    }
  }

  /** The first field of a printed line: the text up to the first comma, less trailing whitespace. */
  lemma FirstFieldOfPrinted(tag: string, text: string, rest: string)
    requires tag != "" && Free(tag, ',') && Trimmed(tag)
    ensures FirstField(tag + text + ", actual=" + rest, tag) == Some(TrimEnd(Split(text, ',')[0]))
  {
    var first := Split(text, ',')[0];
    var tail := " actual=" + rest;
    assert tag + text + ", actual=" + rest == (tag + text) + [','] + tail;
    SplitConcat(tag + text, tail, ',');
    FirstPieceAfter(tag, text);
    TrimEndAfter(tag, first);
    assert TrimStart(tag + first) == tag + first;
    assert (tag + TrimEnd(first))[|tag|..] == TrimEnd(first);
  }

  lemma {:induction false} FirstPieceAfter(tag: string, text: string)
    requires Free(tag, ',')
    ensures Split(tag + text, ',')[0] == tag + Split(text, ',')[0]
  {
    if tag == "" {
      assert tag + text == text;
    } else {
      FirstPieceAfter(tag[1..], text);
      assert (tag + text)[1..] == tag[1..] + text;
      assert tag == [tag[0]] + tag[1..];
    }
  }

  predicate Clean(header: string) {
    header != "" && Free(header, ',') && Trimmed(header)
  }

  lemma {:induction false} CleanListMembers(pieces: seq<string>)
    requires forall i :: 0 <= i < |pieces| ==> Free(pieces[i], ',')
    ensures forall h :: h in CleanList(pieces) ==> Clean(h)
  {
    if pieces == [] {
    } else {
      TrimSpec(pieces[0]);
      CleanListMembers(pieces[1..]);
    }
  }

  lemma {:induction false} CleanListKeeps(pieces: seq<string>)
    requires forall h :: h in pieces ==> Clean(h)
    ensures CleanList(pieces) == pieces
  {
    if pieces == [] {
    } else {
      assert pieces[0] in pieces && Clean(pieces[0]);
      TrimSpec(pieces[0]);
      CleanListKeeps(pieces[1..]);
      assert pieces == [pieces[0]] + pieces[1..];
    }
  }

  function ParsedHeaders(preview: string): seq<string> {
    if Trim(preview) == "" then [] else CleanList(Split(preview, ','))
  }

  /** The missing headers come back exactly when each is non-empty, comma-free and trimmed. */
  lemma HeadersRoundTrip(missing: seq<string>)
    ensures ParsedHeaders(Join(missing, ',')) == missing <==> forall h :: h in missing ==> Clean(h)
  {
    var preview := Join(missing, ',');
    CleanListMembers(Split(preview, ','));
    if missing != [] && forall h :: h in missing ==> Clean(h) {
      CleanListKeeps(missing);
      assert forall i :: 0 <= i < |missing| ==> missing[i] in missing;
      SplitJoin(missing, ',');
      JoinIsNotBlank(missing);
    }
  }

  lemma JoinIsNotBlank(missing: seq<string>)
    requires missing != [] && Clean(missing[0])
    ensures Trim(Join(missing, ',')) != ""
  {
    var j := Join(missing, ',');
    assert j[0] == missing[0][0];
    assert TrimStart(j) == j;
    if TrimEnd(j) == "" {
      TrimEndDropsSpaces(j, 0);
    }
  }

  lemma {:induction false} TrimEndDropsSpaces(s: string, i: nat)
    requires i < |s| && TrimEnd(s) == ""
    ensures IsSpace(s[i])
    decreases |s|
  {
    if i < |s| - 1 {
      TrimEndDropsSpaces(s[..|s| - 1], i);
    }
  }

  predicate PlainPrefix(prefix: string) {
    Free(prefix, ',') && (prefix != "" ==> !IsSpace(prefix[|prefix| - 1]))
  }

  lemma PrefixRoundTrip(prefix: string)
    ensures TrimEnd(Split(prefix, ',')[0]) == prefix <==> PlainPrefix(prefix)
  {
    var first := Split(prefix, ',')[0];
    TrimEndIsPrefix(first);
    if Free(prefix, ',') {
      SplitWhole(prefix, ',');
    }
  }

  /** What is rebuilt from the printed evidence of a mismatch, field by field. */
  lemma RebuiltFields(c: Contract, r: Response, verb: string, path: string)
    requires c.status <= 65535 && Check(c, r).Some?
    ensures Rebuild(verb, path, Check(c, r).value) ==
      Some(Contract(Upper(verb), NormalizeRuntimePath(CanonicalSecurityPath(path)), c.status,
                    TrimEnd(Split(c.prefix, ',')[0]), ParsedHeaders(Join(Missing(c.headers, r.hasHeader), ','))))
  {
    var es := Check(c, r).value;
    var digits := PrintNat(c.status);
    ParsePrintedNat(c.status);
    DigitsArePlain(digits);
    SplitWhole(digits, ',');
    TrimSpec(digits);
    assert TrimEnd(digits) == digits;
    FirstFieldOfPrinted("expected=", digits, PrintNat(r.status));
    FirstFieldOfPrinted("expected_prefix=", c.prefix, r.contentType);
    assert es[..2] == [es[0], es[1]] && es[..2][..1] == [es[0]] && es[..1][..0] == [];
    assert AbsorbAll(es[..1]) == Absorb(EMPTY_DRAFT, es[0]);
    assert AbsorbAll(es[..2]) == Absorb(AbsorbAll(es[..1]), es[1]);
    assert AbsorbAll(es) == Absorb(AbsorbAll(es[..2]), es[2]);
  }

  lemma UpperOfSameName(a: string, b: string)
    requires EqIgnoreCase(a, b)
    ensures Upper(a) == Upper(b)
  {
    forall i | 0 <= i < |a|
      ensures UpperChar(a[i]) == UpperChar(b[i])
    {
      assert Lower(a)[i] == Lower(b)[i];
    }
  }

  /**
   * For a contract found for the request's route, approving its mismatch restores it exactly when its
   * prefix has no comma and no trailing whitespace, each required header is non-empty, comma-free and
   * trimmed, and the response had none of them. The status is always restored.
   */
  lemma ContractRoundTrip(c: Contract, r: Response, verb: string, path: string)
    requires c.status <= 65535 && Check(c, r).Some?
    requires c.verb == Upper(c.verb) && EqIgnoreCase(c.verb, verb)
    requires c.path == NormalizeRuntimePath(CanonicalSecurityPath(path))
    ensures var rebuilt := Rebuild(verb, path, Check(c, r).value);
      && rebuilt.Some? && rebuilt.value.status == c.status
      && (rebuilt.value.prefix == c.prefix <==> PlainPrefix(c.prefix))
      && (rebuilt.value.headers == Missing(c.headers, r.hasHeader) <==>
            forall h :: h in Missing(c.headers, r.hasHeader) ==> Clean(h))
      && (rebuilt == Some(c) <==>
            PlainPrefix(c.prefix) && forall h :: h in c.headers ==> Clean(h) && !r.hasHeader(h))
  {
    var missing := Missing(c.headers, r.hasHeader);
    RebuiltFields(c, r, verb, path);
    PrefixRoundTrip(c.prefix);
    HeadersRoundTrip(missing);
    UpperOfSameName(c.verb, verb);
    CleanListMembers(Split(Join(missing, ','), ','));
    if ParsedHeaders(Join(missing, ',')) == c.headers {
      HeadersReadBackAreMissing(c.headers, r.hasHeader);
    }
  }

  lemma HeadersReadBackAreMissing(headers: seq<string>, hasHeader: string -> bool)
    requires ParsedHeaders(Join(Missing(headers, hasHeader), ',')) == headers
    ensures Missing(headers, hasHeader) == headers
  {
    var missing := Missing(headers, hasHeader);
    CleanListMembers(Split(Join(missing, ','), ','));
    assert forall h :: h in missing ==> Clean(h);
    HeadersRoundTrip(missing);
  }

  method BuildFromMismatch(verb: string, path: string, evidence: seq<Evidence>) returns (contract: Option<Contract>)
    ensures contract == Rebuild(verb, path, evidence)
  {
    var status: Option<nat>, prefix: Option<string>, headers: seq<string> := None, None, [];
    assert evidence[..0] == [];
    for i := 0 to |evidence|
      invariant Draft(status, prefix, headers) == AbsorbAll(evidence[..i])
    {
      assert evidence[..i + 1][..i] == evidence[..i];
      var e := evidence[i];
      if e.location == "response.contract.status" {
        var field := FirstField(e.preview, "expected=");
        if field.Some? {
          status := ParseU16(field.value);
        }
      } else if e.location == "response.contract.content_type" {
        var field := FirstField(e.preview, "expected_prefix=");
        if field.Some? {
          prefix := field;
        }
      } else if e.location == "response.contract.missing_headers" && Trim(e.preview) != "" {
        headers := CleanList(Split(e.preview, ','));
      }
    }
    assert evidence[..|evidence|] == evidence;
    if status.None? || prefix.None? {
      return None;
    }
    return Some(Contract(Upper(verb), NormalizeRuntimePath(CanonicalSecurityPath(path)), status.value, prefix.value, headers));
  }
}
