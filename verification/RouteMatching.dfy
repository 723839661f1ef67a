/** Path normalisation and template matching. */
module RouteMatching {
  import opened Text

  const ID := "{id}"

  predicate IsDigit(c: char) {
    '0' <= c <= '9'
  }

  predicate IsHexDigit(c: char) {
    IsDigit(c) || 'a' <= c <= 'f' || 'A' <= c <= 'F'
  }

  predicate IsTokenChar(c: char) {
    IsDigit(c) || 'a' <= c <= 'z' || 'A' <= c <= 'Z' || c == '_' || c == '-'
  }

  /** The segment shapes taken for identifiers: numbers, long hex, long tokens, dashed hex of length 36. */
  predicate IsIdSegment(s: string) {
    || (|s| >= 1 && forall i :: 0 <= i < |s| ==> IsDigit(s[i]))
    || (|s| >= 8 && forall i :: 0 <= i < |s| ==> IsHexDigit(s[i]))
    || (|s| >= 16 && forall i :: 0 <= i < |s| ==> IsTokenChar(s[i]))
    || (|s| == 36 && forall i :: 0 <= i < |s| ==> IsHexDigit(s[i]) || s[i] == '-')
  }

  const HEX_DIGITS := "0123456789abcdefABCDEF"

  /** The text is written in the alphabet. */
  ghost predicate Over(s: string, alphabet: set<char>) {
    forall c :: c in s ==> c in alphabet
  }

  ghost function Chars(s: string): set<char> {
    set c | c in s
  }

  lemma HexAlphabet(c: char)
    ensures c in HEX_DIGITS <==> IsHexDigit(c)
  {
    DigitAlphabet(c);
    assert HEX_DIGITS == DIGITS + "abcdef" + "ABCDEF";
    assert c in HEX_DIGITS <==> c in DIGITS || c in "abcdef" || c in "ABCDEF";
  }

  lemma TokenAlphabet(c: char)
    ensures c in Chars(LOWER_LETTERS + UPPER_LETTERS + DIGITS + "_-") <==> IsTokenChar(c)
  {
    Alphabets(c);
    assert c in "_-" <==> c == '_' || c == '-';
  }

  /**
   * A segment is an identifier exactly when it is a number, eight or more hex digits, sixteen or more
   * letters, digits, `_` and `-`, or thirty-six hex digits and dashes.
   */
  lemma IdSegmentExactly(s: string)
    ensures IsIdSegment(s) <==>
      || (|s| >= 1 && Over(s, Chars(DIGITS)))
      || (|s| >= 8 && Over(s, Chars(HEX_DIGITS)))
      || (|s| >= 16 && Over(s, Chars(LOWER_LETTERS + UPPER_LETTERS + DIGITS + "_-")))
      || (|s| == 36 && Over(s, Chars(HEX_DIGITS) + {'-'}))
  {
    forall c | c in s
      ensures c in Chars(DIGITS) <==> IsDigit(c)
      ensures c in Chars(HEX_DIGITS) <==> IsHexDigit(c)
      ensures c in Chars(LOWER_LETTERS + UPPER_LETTERS + DIGITS + "_-") <==> IsTokenChar(c)
    {
      DigitAlphabet(c);
      HexAlphabet(c);
      TokenAlphabet(c);
    }
    assert forall i :: 0 <= i < |s| ==> s[i] in s;
  }

  function NormalizeSegment(s: string): string {
    if IsIdSegment(s) then ID else Lower(s)
  }

  function NormalizeAll(segments: seq<string>): (r: seq<string>)
    ensures |r| == |segments| && forall i :: 0 <= i < |r| ==> r[i] == NormalizeSegment(segments[i])
  {
    seq(|segments|, i requires 0 <= i < |segments| => NormalizeSegment(segments[i]))
  }

  function NonEmpty(pieces: seq<string>): (r: seq<string>)
    ensures forall i :: 0 <= i < |r| ==> r[i] != "" && r[i] in pieces
  {
    if pieces == [] then []
    else if pieces[0] == "" then NonEmpty(pieces[1..])
    else [pieces[0]] + NonEmpty(pieces[1..])
  }

  function Segments(path: string): seq<string> {
    NonEmpty(Split(path, '/'))
  }

  function NormalizeRuntimePath(path: string): string {
    "/" + Join(NormalizeAll(Segments(path)), '/')
  }

  /** Requests through the proxy prefix are named by what follows it. */
  function CanonicalSecurityPath(path: string): string {
    if path == "/proxy" then "/"
    else if "/proxy/" <= path then "/" + path[7..]
    else path
  }

  function TrimLeft(s: string): string {
    if s != "" && s[0] == '/' then TrimLeft(s[1..]) else s
  }

  function TrimRight(s: string): string {
    if s != "" && s[|s| - 1] == '/' then TrimRight(s[..|s| - 1]) else s
  }

  function Pieces(path: string): seq<string> {
    Split(TrimRight(TrimLeft(path)), '/')
  }

  predicate IsWild(a: string) {
    a != "" && a[0] == '{' && a[|a| - 1] == '}'
  }

  /** A name in braces, possibly none. */
  ghost predicate Placeholder(s: string) {
    exists name :: s == "{" + name + "}"
  }

  lemma WildExactly(s: string)
    ensures IsWild(s) <==> Placeholder(s)
  {
    if IsWild(s) {
      assert |s| > 1;
      assert s == "{" + s[1..|s| - 1] + "}";
    }
  }

  predicate PiecesMatch(lhs: seq<string>, rhs: seq<string>) {
    |lhs| == |rhs| && forall i :: 0 <= i < |lhs| ==> IsWild(lhs[i]) || EqIgnoreCase(lhs[i], rhs[i])
  }

  predicate RoutePatternMatch(template: string, path: string) {
    PiecesMatch(Pieces(template), Pieces(path))
  }

  // Segments

  ghost predicate SlashFree(segments: seq<string>) {
    forall i :: 0 <= i < |segments| ==> segments[i] != "" && Free(segments[i], '/')
  }

  lemma SegmentsSlashFree(path: string)
    ensures SlashFree(Segments(path))
  {
  }

  lemma {:induction false} NonEmptyKeepsAll(segments: seq<string>)
    requires SlashFree(segments)
    ensures NonEmpty(segments) == segments
  {
    if segments == [] {
    } else {
      NonEmptyKeepsAll(segments[1..]);
    }
  }

  lemma {:induction false} NonEmptyConcat(a: seq<string>, b: seq<string>)
    ensures NonEmpty(a + b) == NonEmpty(a) + NonEmpty(b)
  {
    if a == [] {
      assert a + b == b;
    } else {
      NonEmptyConcat(a[1..], b);
      assert (a + b)[0] == a[0] && (a + b)[1..] == a[1..] + b;
      ConcatAssociates([a[0]], NonEmpty(a[1..]), NonEmpty(b));
    }
  }

  lemma SegmentsConcat(a: string, b: string)
    ensures Segments(a + "/" + b) == Segments(a) + Segments(b)
  {
    SplitConcat(a, b, '/');
    assert a + "/" + b == a + ['/'] + b;
    NonEmptyConcat(Split(a, '/'), Split(b, '/'));
  }

  /** The segments of a path printed with single slashes. */
  lemma SegmentsOfPrinted(segments: seq<string>)
    requires SlashFree(segments)
    ensures Segments("/" + Join(segments, '/')) == segments
  {
    var joined := Join(segments, '/');
    assert "" + "/" + joined == "/" + joined;
    SegmentsConcat("", joined);
    assert Segments("") == [];
    if segments == [] {
      assert Segments(joined) == [];
    } else {
      SplitJoin(segments, '/');
      NonEmptyKeepsAll(segments);
    }
  }

  lemma {:induction false} JoinEnds(segments: seq<string>)
    requires SlashFree(segments) && segments != []
    ensures var j := Join(segments, '/'); j != "" && j[0] != '/' && j[|j| - 1] != '/'
  {
    assert segments[0][0] in segments[0];
    var last := segments[|segments| - 1];
    assert last[|last| - 1] in last;
    if |segments| <= 1 {
    } else {
      JoinEnds(segments[1..]);
    }
  }

  /** What the matcher splits a normalised path into: the empty path still has one, empty, piece. */
  lemma PiecesOfPrinted(segments: seq<string>)
    requires SlashFree(segments)
    ensures Pieces("/" + Join(segments, '/')) == if segments == [] then [""] else segments
  {
    var joined := Join(segments, '/');
    var path := "/" + joined;
    assert path[1..] == joined;
    if segments != [] {
      JoinEnds(segments);
      SplitJoin(segments, '/');
      assert TrimLeft(path) == joined && TrimRight(joined) == joined;
    } else {
      assert TrimLeft(path) == TrimLeft("") == "";
    }
  }

  // Case folding does not change what counts as an identifier

  lemma SameCaseSameClass(a: string, b: string)
    requires EqIgnoreCase(a, b)
    ensures IsIdSegment(a) <==> IsIdSegment(b)
  {
    forall i | 0 <= i < |a|
      ensures IsDigit(a[i]) <==> IsDigit(b[i])
      ensures IsHexDigit(a[i]) <==> IsHexDigit(b[i])
      ensures IsTokenChar(a[i]) <==> IsTokenChar(b[i])
      ensures a[i] == '-' <==> b[i] == '-'
    {
      assert Lower(a)[i] == Lower(b)[i];
    }
  }

  lemma NormalizeSegmentFacts(s: string)
    ensures s != "" ==> NormalizeSegment(s) != ""
    ensures Free(s, '/') ==> Free(NormalizeSegment(s), '/')
    ensures NormalizeSegment(NormalizeSegment(s)) == NormalizeSegment(s)
    ensures IsWild(NormalizeSegment(s)) <==> IsIdSegment(s) || IsWild(s)
  {
    LowerIdempotent(s);
    SameCaseSameClass(s, Lower(s));
    assert !IsDigit(ID[0]) && !IsHexDigit(ID[0]) && !IsTokenChar(ID[0]);
    assert Lower(ID) == ID;
    if '/' in Lower(s) {
      var i :| 0 <= i < |s| && Lower(s)[i] == '/';
      assert s[i] == '/';
    }
    if s != "" {
      assert Lower(s)[0] == '{' <==> s[0] == '{';
      assert Lower(s)[|s| - 1] == '}' <==> s[|s| - 1] == '}';
    }
  }

  lemma NormalizedSlashFree(segments: seq<string>)
    requires SlashFree(segments)
    ensures SlashFree(NormalizeAll(segments)) && NormalizeAll(NormalizeAll(segments)) == NormalizeAll(segments)
  {
    forall i | 0 <= i < |segments|
      ensures NormalizeSegment(segments[i]) != "" && Free(NormalizeSegment(segments[i]), '/')
      ensures NormalizeSegment(NormalizeSegment(segments[i])) == NormalizeSegment(segments[i])
    {
      NormalizeSegmentFacts(segments[i]);
    }
  }

  lemma NormalizedSegments(path: string)
    ensures Segments(NormalizeRuntimePath(path)) == NormalizeAll(Segments(path))
    ensures Pieces(NormalizeRuntimePath(path)) ==
            if Segments(path) == [] then [""] else NormalizeAll(Segments(path))
  {
    SegmentsSlashFree(path);
    NormalizedSlashFree(Segments(path));
    SegmentsOfPrinted(NormalizeAll(Segments(path)));
    PiecesOfPrinted(NormalizeAll(Segments(path)));
  }

  lemma NormalizeIsIdempotent(path: string)
    ensures NormalizeRuntimePath(NormalizeRuntimePath(path)) == NormalizeRuntimePath(path)
  {
    SegmentsSlashFree(path);
    NormalizedSlashFree(Segments(path));
    NormalizedSegments(path);
  }

  // Matching

  /** A placeholder or an identifier-like literal takes any segment, another literal itself in any case. */
  ghost predicate Accepts(template: string, segment: string) {
    Placeholder(template) || IsIdSegment(template) || EqIgnoreCase(template, segment)
  }

  lemma AcceptsNormalized(template: string, segment: string)
    ensures var a, b := NormalizeSegment(template), NormalizeSegment(segment);
      IsWild(a) || EqIgnoreCase(a, b) <==> Accepts(template, segment)
  {
    WildExactly(template);
    NormalizeSegmentFacts(template);
    LowerIdempotent(template);
    LowerIdempotent(segment);
    if EqIgnoreCase(template, segment) {
      SameCaseSameClass(template, segment);
    }
    if !IsIdSegment(template) && IsIdSegment(segment) && EqIgnoreCase(NormalizeSegment(template), ID) {
      assert Lower(ID) == ID;
      assert Lower(template) == ID;
    }
  }

  ghost predicate SegmentsMatch(ts: seq<string>, ps: seq<string>) {
    |ts| == |ps| && forall i :: 0 <= i < |ts| ==> Accepts(ts[i], ps[i])
  }

  lemma PiecesMatchNormalized(ts: seq<string>, ps: seq<string>)
    ensures PiecesMatch(NormalizeAll(ts), NormalizeAll(ps)) <==> SegmentsMatch(ts, ps)
  {
    if |ts| == |ps| {
      forall i | 0 <= i < |ts|
        ensures (IsWild(NormalizeAll(ts)[i]) || EqIgnoreCase(NormalizeAll(ts)[i], NormalizeAll(ps)[i])) <==> Accepts(ts[i], ps[i])
      {
        AcceptsNormalized(ts[i], ps[i]);
      }
    }
  }

  /**
   * A compiled template matches a normalised path exactly when the segments agree one by one, or, since
   * the root path counts as one empty segment, when the template is a single wildcard and the path the root.
   */
  lemma MatchIsSegmentwise(template: string, path: string)
    ensures RoutePatternMatch(NormalizeRuntimePath(template), NormalizeRuntimePath(path)) <==>
      var ts, ps := Segments(template), Segments(path);
      SegmentsMatch(ts, ps) || (|ts| == 1 && ps == [] && (Placeholder(ts[0]) || IsIdSegment(ts[0])))
  {
    var ts, ps := Segments(template), Segments(path);
    NormalizedSegments(template);
    NormalizedSegments(path);
    SegmentsSlashFree(template);
    SegmentsSlashFree(path);
    PiecesMatchNormalized(ts, ps);
    if |ts| == 1 {
      WildExactly(ts[0]);
      NormalizeSegmentFacts(ts[0]);
    }
    if |ps| == 1 {
      NormalizeSegmentFacts(ps[0]);
    }
  }

  // Every filled-in template is found

  function Slashes(n: nat): string {
    if n == 0 then "" else "/" + Slashes(n - 1)
  }

  /** The segments one after the other, with `gaps[i]` slashes before segment i and the last gap at the end. */
  function Spaced(segments: seq<string>, gaps: seq<nat>): string
    requires |gaps| == |segments| + 1
  {
    if segments == [] then Slashes(gaps[0])
    else Slashes(gaps[0]) + segments[0] + Spaced(segments[1..], gaps[1..])
  }

  lemma {:induction false} SegmentsAfterSlashes(n: nat, rest: string)
    ensures Segments(Slashes(n) + rest) == Segments(rest)
  {
    if n == 0 {
      assert Slashes(n) + rest == rest;
    } else {
      SegmentsAfterSlashes(n - 1, rest);
      SegmentsAfterSlash(Slashes(n - 1) + rest);
      assert Slashes(n) + rest == "/" + (Slashes(n - 1) + rest);
    }
  }

  lemma {:induction false} SegmentsOfSpaced(segments: seq<string>, gaps: seq<nat>)
    requires |gaps| == |segments| + 1 && SlashFree(segments)
    requires forall i :: 0 < i < |segments| ==> gaps[i] > 0
    ensures Segments(Spaced(segments, gaps)) == segments
  {
    if segments == [] {
      SegmentsAfterSlashes(gaps[0], "");
      assert Slashes(gaps[0]) + "" == Slashes(gaps[0]);
    } else {
      var head, tail := segments[0], Spaced(segments[1..], gaps[1..]);
      SegmentsOfSpaced(segments[1..], gaps[1..]);
      SegmentsAfterSlashes(gaps[0], head + tail);
      assert Slashes(gaps[0]) + head + tail == Slashes(gaps[0]) + (head + tail);
      SpacedStart(segments[1..], gaps[1..]);
      SegmentsBeforeSlash(head, tail);
    }
  }

  lemma SegmentsAfterSlash(rest: string)
    ensures Segments("/" + rest) == Segments(rest)
  {
    assert "/" + rest == "" + "/" + rest;
    SegmentsConcat("", rest);
    assert Segments("") == [];
  }

  lemma SpacedStart(segments: seq<string>, gaps: seq<nat>)
    requires |gaps| == |segments| + 1
    ensures gaps[0] > 0 ==> Spaced(segments, gaps) != "" && Spaced(segments, gaps)[0] == '/'
    ensures gaps[0] == 0 && segments == [] ==> Spaced(segments, gaps) == ""
  {
  }

  lemma SegmentOfHead(head: string)
    requires head != "" && Free(head, '/')
    ensures Segments(head) == [head]
  {
    SplitWhole(head, '/');
    NonEmptyKeepsAll([head]);
  }

  lemma SegmentsBeforeSlash(head: string, tail: string)
    requires head != "" && Free(head, '/') && (tail == "" || tail[0] == '/')
    ensures Segments(head + tail) == [head] + Segments(tail)
  {
    SegmentOfHead(head);
    if tail == "" {
      assert head + tail == head && Segments(tail) == [];
    } else {
      var after := tail[1..];
      SegmentsAfterSlash(after);
      SegmentsConcat(head, after);
      assert tail == "/" + after;
      assert head + tail == head + "/" + after;
    }
  }

  datatype RouteSpec = RouteSpec(verb: string, template: string)

  datatype CompiledSpec = CompiledSpec(verb: string, normalizedTemplate: string)

  function Compile(route: RouteSpec): CompiledSpec {
    CompiledSpec(Upper(route.verb), NormalizeRuntimePath(route.template))
  }

  predicate RouteMatches(route: CompiledSpec, verb: string, path: string) {
    EqIgnoreCase(route.verb, verb) && RoutePatternMatch(route.normalizedTemplate, path)
  }

  /** The index of the first matching route, if any. */
  function SpecMatch(routes: seq<CompiledSpec>, verb: string, path: string): (r: Option<nat>)
    ensures r.Some? ==> r.value < |routes| && RouteMatches(routes[r.value], verb, path)
    ensures forall i :: 0 <= i < (if r.Some? then r.value else |routes|) ==> !RouteMatches(routes[i], verb, path)
  {
    if routes == [] then None
    else if RouteMatches(routes[0], verb, path) then Some(0)
    else
      var rest := SpecMatch(routes[1..], verb, path);
      if rest.Some? then Some(rest.value + 1) else None
  }

  function CompileAll(specs: seq<RouteSpec>): (r: seq<CompiledSpec>)
    ensures |r| == |specs| && forall i :: 0 <= i < |r| ==> r[i] == Compile(specs[i])
  {
    seq(|specs|, i requires 0 <= i < |specs| => Compile(specs[i]))
  }

  lemma UpperThenLower(s: string)
    ensures Lower(Upper(s)) == Lower(s)
  {
  }

  /** Placeholders filled with anything, literals in any case. */
  ghost predicate Fills(segments: seq<string>, template: string) {
    var ts := Segments(template);
    && |segments| == |ts| && SlashFree(segments)
    && forall i :: 0 <= i < |ts| ==> Placeholder(ts[i]) || EqIgnoreCase(ts[i], segments[i])
  }

  /**
   * A request whose path fills in a configured template, with any number of slashes between segments
   * and directly or through the proxy prefix, is matched, by that route or by an earlier one.
   */
  lemma FilledTemplateIsMatched(specs: seq<RouteSpec>, k: nat, verb: string, segments: seq<string>, gaps: seq<nat>)
    requires k < |specs| && EqIgnoreCase(specs[k].verb, verb) && Fills(segments, specs[k].template)
    requires |gaps| == |segments| + 1 && forall i :: 0 < i < |segments| ==> gaps[i] > 0
    ensures var r := SpecMatch(CompileAll(specs), verb, NormalizeRuntimePath(Spaced(segments, gaps)));
            r.Some? && r.value <= k
    ensures gaps[0] > 0 ==> CanonicalSecurityPath("/proxy" + Spaced(segments, gaps)) == Spaced(segments, gaps)
  {
    var path := Spaced(segments, gaps);
    SegmentsOfSpaced(segments, gaps);
    assert SegmentsMatch(Segments(specs[k].template), segments);
    MatchIsSegmentwise(specs[k].template, path);
    UpperThenLower(specs[k].verb);
    assert RouteMatches(CompileAll(specs)[k], verb, NormalizeRuntimePath(path));
    if gaps[0] > 0 {
      SpacedStart(segments, gaps);
      ProxyPrefixIsDropped(path);
    }
  }

  /** The template accepts the path, segment by segment, and the method agrees ignoring case. */
  ghost predicate Describes(spec: RouteSpec, verb: string, path: string) {
    var ts, ps := Segments(spec.template), Segments(path);
    && EqIgnoreCase(spec.verb, verb)
    && (SegmentsMatch(ts, ps) || (|ts| == 1 && ps == [] && (Placeholder(ts[0]) || IsIdSegment(ts[0]))))
  }

  /** The route found is the first one that describes the request, and none is found when none does. */
  lemma SpecMatchExactly(specs: seq<RouteSpec>, verb: string, path: string)
    ensures var r := SpecMatch(CompileAll(specs), verb, NormalizeRuntimePath(path));
      && (r.Some? ==> r.value < |specs| && Describes(specs[r.value], verb, path))
      && forall i :: 0 <= i < (if r.Some? then r.value else |specs|) ==> !Describes(specs[i], verb, path)
  {
    forall i | 0 <= i < |specs|
      ensures RouteMatches(CompileAll(specs)[i], verb, NormalizeRuntimePath(path)) <==> Describes(specs[i], verb, path)
    {
      UpperThenLower(specs[i].verb);
      MatchIsSegmentwise(specs[i].template, path);
    }
  }

  lemma ProxyPrefixIsDropped(path: string)
    requires path != "" && path[0] == '/'
    ensures CanonicalSecurityPath("/proxy" + path) == path
  {
    var proxied := "/proxy" + path;
    assert proxied[6] == '/' && proxied[..7] == "/proxy/";
    assert proxied[7..] == path[1..] && path == "/" + path[1..];
  }

  /** Only paths under the proxy prefix are renamed, and the prefix alone is the root. */
  lemma OtherPathsKeepTheirName(path: string)
    ensures CanonicalSecurityPath("/proxy") == "/"
    ensures CanonicalSecurityPath(path) != path ==> path == "/proxy" || exists rest :: path == "/proxy" + "/" + rest
  {
    if "/proxy/" <= path {
      assert path == "/proxy" + "/" + path[7..];
    }
  }

  // Which paths are learned as one route

  /** Two segments name the same: both are identifiers or placeholders for one, or they are equal ignoring case. */
  ghost predicate SameSegment(a: string, b: string) {
    || ((IsIdSegment(a) || EqIgnoreCase(a, "{id}")) && (IsIdSegment(b) || EqIgnoreCase(b, "{id}")))
    || (!IsIdSegment(a) && !IsIdSegment(b) && EqIgnoreCase(a, b))
  }

  lemma SameNormalized(a: string, b: string)
    ensures NormalizeSegment(a) == NormalizeSegment(b) <==> SameSegment(a, b)
  {
    assert Lower(ID) == ID;
  }

  lemma JoinIdentifies(a: seq<string>, b: seq<string>)
    requires SlashFree(a) && SlashFree(b)
    ensures "/" + Join(a, '/') == "/" + Join(b, '/') <==> a == b
  {
    SegmentsOfPrinted(a);
    SegmentsOfPrinted(b);
  }

  /** Two paths are learned as one route exactly when their non-empty segments agree one by one. */
  lemma NormalizeIdentifies(a: string, b: string)
    ensures NormalizeRuntimePath(a) == NormalizeRuntimePath(b) <==>
      && |Segments(a)| == |Segments(b)|
      && forall i :: 0 <= i < |Segments(a)| ==> SameSegment(Segments(a)[i], Segments(b)[i])
  {
    var x, y := Segments(a), Segments(b);
    SegmentsSlashFree(a);
    SegmentsSlashFree(b);
    NormalizedSlashFree(x);
    NormalizedSlashFree(y);
    JoinIdentifies(NormalizeAll(x), NormalizeAll(y));
    if |x| == |y| {
      forall i | 0 <= i < |x|
        ensures NormalizeAll(x)[i] == NormalizeAll(y)[i] <==> SameSegment(x[i], y[i])
      {
        SameNormalized(x[i], y[i]);
      }
    }
  }

  /** A normalised path shows a placeholder for each identifier and every other segment in lower case. */
  lemma NormalizedShows(path: string, i: nat)
    requires i < |Segments(path)|
    ensures |Segments(NormalizeRuntimePath(path))| == |Segments(path)|
    ensures Segments(NormalizeRuntimePath(path))[i] ==
      if IsIdSegment(Segments(path)[i]) then "{id}" else Lower(Segments(path)[i])
  {
    NormalizedSegments(path);
  }

  lemma NormalizeAllPrepend(segment: string, rest: seq<string>)
    ensures NormalizeAll([segment] + rest) == [NormalizeSegment(segment)] + NormalizeAll(rest)
  {
  }

  lemma NormalizeNext(pieces: seq<string>, i: nat)
    requires i < |pieces|
    ensures NormalizeAll(NonEmpty(pieces[i..])) ==
      if pieces[i] == "" then NormalizeAll(NonEmpty(pieces[i + 1..]))
      else [NormalizeSegment(pieces[i])] + NormalizeAll(NonEmpty(pieces[i + 1..]))
  {
    assert pieces[i..][0] == pieces[i] && pieces[i..][1..] == pieces[i + 1..];
    NormalizeAllPrepend(pieces[i], NonEmpty(pieces[i + 1..]));
  }

  method NormalizePath(path: string) returns (r: string)
    ensures r == NormalizeRuntimePath(path)
  {
    var out: seq<string> := [];
    var pieces := Split(path, '/');
    ghost var all := NormalizeAll(Segments(path));
    assert pieces[0..] == pieces && out + all == all;
    for i := 0 to |pieces|
      invariant out + NormalizeAll(NonEmpty(pieces[i..])) == all
    {
      NormalizeNext(pieces, i);
      if pieces[i] == "" {
        continue;
      }
      var segment := if IsIdSegment(pieces[i]) then ID else Lower(pieces[i]);
      assert out + ([segment] + NormalizeAll(NonEmpty(pieces[i + 1..]))) == (out + [segment]) + NormalizeAll(NonEmpty(pieces[i + 1..]));
      out := out + [segment];
    }
    assert NonEmpty(pieces[|pieces|..]) == [] && out == all;
    r := "/" + Join(out, '/');
  }
}
