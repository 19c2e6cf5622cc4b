/**
 * src/freedos_micro_python/port/urllib_parse_uc386dos.c: urlsplit, and the reassembly it inverts
 * (section 3 of RFC 3986).
 */
module UrlSplit {
  import opened Machine
  import opened UrlCodec

  const COLON: byte := 0x3A
  const QUESTION: byte := 0x3F
  const HASH: byte := 0x23

  datatype Parts = Parts(scheme: text, netloc: text, path: text, query: text, fragment: text)

  /** Which separators ":", "//", "?" and "#" are there; the five strings alone do not say. */
  datatype Marks = Marks(scheme: bool, netloc: bool, query: bool, fragment: bool)

  // ---- reassembly ----

  function FragmentPart(s: Parts, k: Marks): text { if k.fragment then [HASH] + s.fragment else [] }
  function QueryPart(s: Parts, k: Marks): text { (if k.query then [QUESTION] + s.query else []) + FragmentPart(s, k) }
  function PathPart(s: Parts, k: Marks): text { s.path + QueryPart(s, k) }
  function NetlocPart(s: Parts, k: Marks): text
  {
    (if k.netloc then [SLASH, SLASH] + s.netloc else []) + PathPart(s, k)
  }
  function Rebuild(s: Parts, k: Marks): text { (if k.scheme then s.scheme + [COLON] else []) + NetlocPart(s, k) }

  // ---- well-formed splits ----

  predicate IsLetter(c: byte) { 0x41 <= c <= 0x5A || 0x61 <= c <= 0x7A }

  predicate IsSchemeByte(c: byte)
  {
    IsLetter(c) || 0x30 <= c <= 0x39 || c == PLUS || c == 0x2D || c == 0x2E
  }

  /** `u` has a scheme that ends at position `i`. */
  predicate SchemeAt(u: text, i: nat)
  {
    0 < i < |u| && IsLetter(u[0]) && u[i] == COLON && forall k :: 0 < k < i ==> IsSchemeByte(u[k])
  }

  ghost predicate HasScheme(u: text) { exists i :: SchemeAt(u, i) }

  predicate None(s: text, stops: set<byte>) { forall k :: 0 <= k < |s| ==> s[k] !in stops }

  predicate StartsDoubleSlash(u: text) { |u| > 1 && u[0] == SLASH && u[1] == SLASH }

  /** Every piece is free of the separators that end it, and no separator is missed. */
  ghost predicate WellFormed(s: Parts, k: Marks)
  {
    && (if k.scheme then SchemeAt(Rebuild(s, k), |s.scheme|) else s.scheme == [] && !HasScheme(Rebuild(s, k)))
    && (if k.netloc then s.path == [] || s.path[0] == SLASH else s.netloc == [] && !StartsDoubleSlash(NetlocPart(s, k)))
    && None(s.netloc, {SLASH, QUESTION, HASH})
    && None(s.path, {QUESTION, HASH})
    && (k.query || s.query == []) && None(s.query, {HASH})
    && (k.fragment || s.fragment == [])
  }

  /** With everything present, in the order of section 3 of RFC 3986. */
  lemma RebuildLaw(s: Parts)
    ensures Rebuild(s, Marks(true, true, true, true))
         == (s.scheme + [':' as int])
          + ((['/' as int, '/' as int] + s.netloc)
          + (s.path + ((['?' as int] + s.query) + (['#' as int] + s.fragment))))
  {
  }

  /** Section 3.1 of RFC 3986: a letter, then letters, digits, "+", "-" and ".", then ":". */
  lemma SchemeAlphabet(c: byte)
    ensures IsLetter(c) <==> c as char in "ABCDEFGHIJKLMNOPQRSTUVWXYZ" || c as char in "abcdefghijklmnopqrstuvwxyz"
    ensures IsSchemeByte(c) <==> IsLetter(c) || c as char in "0123456789" || c as char in "+-."
  {
    UpperLetters(c);
    LowerLetters(c);
    DecimalDigits(c);
  }

  lemma DecimalDigits(c: byte)
    ensures c as char in "0123456789" <==> 0x30 <= c <= 0x39
    ensures c as char in "+-." <==> c == 0x2B || c == 0x2D || c == 0x2E
  {
  }

  lemma SchemeExactly(u: text, i: nat)
    ensures SchemeAt(u, i) <==>
            && 1 <= i < |u| && u[i] == ':' as int && IsLetter(u[0])
            && forall k :: 1 <= k < i ==> IsSchemeByte(u[k])
    ensures COLON == ':' as int && QUESTION == '?' as int && HASH == '#' as int && SLASH == '/' as int
    ensures StartsDoubleSlash(u) <==> ['/' as int, '/' as int] <= u
  {
    hide IsLetter, IsSchemeByte;
  }

  /** The five pieces of `url`: with suitable separators they rebuild it, each free of what ends it. */
  ghost predicate IsSplit(url: text, s: Parts)
  {
    exists k :: Rebuild(s, k) == url && WellFormed(s, k)
  }

  // ---- the code ----

  /** The scheme loop: the position of ":" after a run of scheme bytes, or nothing. */
  method ScanScheme(url: text) returns (has: bool, end: nat)
    ensures has ==> SchemeAt(url, end)
    ensures !has ==> end == 0 && !HasScheme(url)
  {
    hide IsLetter, IsSchemeByte;
    has, end := false, 0;
    ColonNotScheme();
    var n := |url|;
    if n > 0 && IsLetter(url[0]) {
      var i := 1;
      while i < n
        invariant 1 <= i <= n && !has && end == 0
        invariant forall k :: 0 < k < i ==> IsSchemeByte(url[k])
      {
        var c := url[i];
        if c == COLON {
          end, has := i, true;
          return;
        }
        if !IsSchemeByte(c) {
          break;
        }
        i := i + 1;
      }
      assert i < n ==> url[i] != COLON && !IsSchemeByte(url[i]);
    }
  }

  lemma ColonNotScheme()
    ensures !IsSchemeByte(COLON)
  {
  }

  /** The authority, if "//" comes next. */
  method ScanNetloc(url: text, start: nat) returns (netloc: text, pos: nat, ghost has: bool)
    requires start <= |url|
    ensures start <= pos <= |url|
    ensures url[start..pos] == if has then [SLASH, SLASH] + netloc else []
    ensures None(netloc, {SLASH, QUESTION, HASH})
    ensures has ==> pos == |url| || url[pos] in {SLASH, QUESTION, HASH}
    ensures !has ==> netloc == [] && !StartsDoubleSlash(url[start..])
  {
    pos := start;
    netloc, has := [], false;
    if pos + 1 < |url| && url[pos] == SLASH && url[pos + 1] == SLASH {
      pos := pos + 2;
      var netlocStart := pos;
      pos := FindFrom(url, pos, |url|, {SLASH, QUESTION, HASH});
      netloc, has := url[netlocStart..pos], true;
    }
  }

  /** Query and fragment, from the end of the path on. */
  method ScanQuery(url: text, pathEnd: nat)
    returns (query: text, fragment: text, ghost hasQuery: bool, ghost hasFragment: bool)
    requires pathEnd <= |url| && (pathEnd < |url| ==> url[pathEnd] in {QUESTION, HASH})
    ensures url[pathEnd..]
         == (if hasQuery then [QUESTION] + query else []) + (if hasFragment then [HASH] + fragment else [])
    ensures None(query, {HASH}) && (hasQuery || query == []) && (hasFragment || fragment == [])
  {
    hide *;
    var n, pos := |url|, pathEnd;
    var queryStart, queryEnd := pathEnd, pathEnd;
    hasQuery, hasFragment := false, false;
    if pos < n && url[pos] == QUESTION {
      pos := pos + 1;
      queryStart := pos;
      pos := FindFrom(url, pos, n, {HASH});
      queryEnd := pos;
      hasQuery := true;
    }
    var fragStart := queryEnd;
    if pos < n && url[pos] == HASH {
      pos := pos + 1;
      fragStart := pos;
      hasFragment := true;
    }
    query, fragment := url[queryStart..queryEnd], url[fragStart..];
    NoneSlice(url, queryStart, queryEnd, {HASH});
    QueryPieces(url, pathEnd, queryEnd);
  }

  lemma QueryPieces(url: text, b: nat, c: nat)
    requires b <= c <= |url|
    ensures url[b..]
         == (if b < c then [url[b]] + url[b + 1..c] else []) + (if c < |url| then [url[c]] + url[c + 1..] else [])
    ensures url[c..c] == url[|url|..] == []
  {
  }

  method Split(url: text) returns (r: Parts, ghost k: Marks)
    ensures Rebuild(r, k) == url && WellFormed(r, k)
    ensures IsSplit(url, r)
  {
    hide *;
    var hasScheme, schemeEnd := ScanScheme(url);
    SchemeInside(url, schemeEnd);
    var start := if hasScheme then schemeEnd + 1 else 0;
    var scheme := url[..if hasScheme then schemeEnd else 0];
    ghost var hasNetloc, hasQuery, hasFragment;
    var netloc, pathStart, query, fragment;
    netloc, pathStart, hasNetloc := ScanNetloc(url, start);
    var pathEnd := FindFrom(url, pathStart, |url|, {QUESTION, HASH});
    NoneSlice(url, pathStart, pathEnd, {QUESTION, HASH});
    query, fragment, hasQuery, hasFragment := ScanQuery(url, pathEnd);
    r := Parts(scheme, netloc, url[pathStart..pathEnd], query, fragment);
    k := Marks(hasScheme, hasNetloc, hasQuery, hasFragment);
    SplitHolds(url, schemeEnd, pathStart, pathEnd, r, k);
  }

  /** What the scans found makes a well-formed split. */
  lemma SplitHolds(url: text, schemeEnd: nat, b: nat, c: nat, r: Parts, k: Marks)
    requires if k.scheme then SchemeAt(url, schemeEnd) else schemeEnd == 0 && !HasScheme(url)
    requires schemeEnd <= |url| && r.scheme == url[..schemeEnd]
    requires var a := if k.scheme then schemeEnd + 1 else 0;
             && a <= b <= c <= |url|
             && url[a..b] == (if k.netloc then [SLASH, SLASH] + r.netloc else [])
             && (k.netloc || (r.netloc == [] && !StartsDoubleSlash(url[a..])))
    requires k.netloc ==> b == |url| || url[b] in {SLASH, QUESTION, HASH}
    requires url[b..c] == r.path
    requires url[c..]
          == (if k.query then [QUESTION] + r.query else []) + (if k.fragment then [HASH] + r.fragment else [])
    requires None(r.netloc, {SLASH, QUESTION, HASH}) && None(r.path, {QUESTION, HASH}) && None(r.query, {HASH})
    requires (k.query || r.query == []) && (k.fragment || r.fragment == [])
    ensures Rebuild(r, k) == url && WellFormed(r, k) && IsSplit(url, r)
  {
    hide HasScheme, SchemeAt, Rebuild, NetlocPart;
    SchemeInside(url, schemeEnd);
    Reassemble(url, if k.scheme then schemeEnd + 1 else 0, b, c, r, k);
    FirstOfPath(url, b, c);
  }

  lemma Reassemble(url: text, a: nat, b: nat, c: nat, r: Parts, k: Marks)
    requires a <= b <= c <= |url|
    requires url[..a] == if k.scheme then r.scheme + [COLON] else []
    requires url[a..b] == if k.netloc then [SLASH, SLASH] + r.netloc else []
    requires url[b..c] == r.path && url[c..] == QueryPart(r, k)
    ensures NetlocPart(r, k) == url[a..] && Rebuild(r, k) == url
  {
    hide QueryPart;
    CutAt(url, b, c);
    CutAt(url, a, b);
    CutAt(url, 0, a);
    assert url[0..] == url && url[0..a] == url[..a];
  }

  lemma CutAt(u: text, a: nat, b: nat)
    requires a <= b <= |u|
    ensures u[a..] == u[a..b] + u[b..]
  {
  }

  lemma NoneSlice(url: text, b: nat, c: nat, stops: set<byte>)
    requires b <= c <= |url| && forall k :: b <= k < c ==> url[k] !in stops
    ensures None(url[b..c], stops)
  {
  }

  lemma FirstOfPath(url: text, b: nat, c: nat)
    requires b <= c <= |url|
    ensures b < c ==> url[b..c][0] == url[b]
  {
  }

  lemma SchemeInside(url: text, i: nat)
    ensures SchemeAt(url, i) ==> 0 < i < |url| && url[i] == COLON
  {
  }

  // ---- the split is the only one ----

  lemma SchemeUnique(u: text, i: nat, j: nat)
    requires SchemeAt(u, i) && SchemeAt(u, j)
    ensures i == j
  {
  }

  /** A piece without stops, followed by nothing or by a stop, is the stretch up to the first stop. */
  lemma PieceEnds(piece: text, rest: text, stops: set<byte>)
    requires None(piece, stops) && (rest == [] || rest[0] in stops)
    ensures Find(piece + rest, stops) == |piece|
  {
    FindUnique(piece + rest, stops, |piece|);
  }

  lemma SamePieces(a: text, r: text, b: text, s: text, stops: set<byte>)
    requires a + r == b + s
    requires None(a, stops) && (r == [] || r[0] in stops)
    requires None(b, stops) && (s == [] || s[0] in stops)
    ensures a == b && r == s
  {
    hide None, Find;
    PieceEnds(a, r, stops);
    PieceEnds(b, s, stops);
    assert (a + r)[..|a|] == a && (b + s)[..|b|] == b && (a + r)[|a|..] == r && (b + s)[|b|..] == s;
  }

  lemma QueryFront(s: Parts, k: Marks)
    requires WellFormed(s, k)
    ensures var u, f := QueryPart(s, k), FragmentPart(s, k);
            && (k.query <==> u != [] && u[0] == QUESTION)
            && (if k.query then u[1..] == s.query + f else u == f)
            && (k.fragment <==> f != []) && (f == [] || f[0] in {HASH})
            && (k.fragment ==> f[1..] == s.fragment)
  {
    hide Rebuild, NetlocPart, HasScheme, SchemeAt, None;
    if k.query {
      assert QueryPart(s, k) == [QUESTION] + (s.query + FragmentPart(s, k));
    }
  }

  lemma QueryUnique(s: Parts, k: Marks, t: Parts, l: Marks)
    requires WellFormed(s, k) && WellFormed(t, l) && QueryPart(s, k) == QueryPart(t, l)
    ensures s.query == t.query && s.fragment == t.fragment && k.query == l.query && k.fragment == l.fragment
  {
    hide Rebuild, NetlocPart, HasScheme, SchemeAt, None, QueryPart, FragmentPart;
    QueryFront(s, k);
    QueryFront(t, l);
    if k.query {
      SamePieces(s.query, FragmentPart(s, k), t.query, FragmentPart(t, l), {HASH});
    }
  }

  lemma NetlocFront(s: Parts, k: Marks)
    requires WellFormed(s, k)
    ensures var u, p := NetlocPart(s, k), PathPart(s, k);
            && (k.netloc <==> StartsDoubleSlash(u))
            && (if k.netloc then u[2..] == s.netloc + p else u == p)
            && (k.netloc ==> p == [] || p[0] in {SLASH, QUESTION, HASH})
  {
    hide Rebuild, HasScheme, SchemeAt, None;
    if k.netloc {
      assert NetlocPart(s, k) == [SLASH, SLASH] + (s.netloc + PathPart(s, k));
    }
  }

  lemma NetlocUnique(s: Parts, k: Marks, t: Parts, l: Marks)
    requires WellFormed(s, k) && WellFormed(t, l) && NetlocPart(s, k) == NetlocPart(t, l)
    ensures s.netloc == t.netloc && k.netloc == l.netloc && PathPart(s, k) == PathPart(t, l)
  {
    hide Rebuild, NetlocPart, PathPart, HasScheme, SchemeAt, None, StartsDoubleSlash;
    NetlocFront(s, k);
    NetlocFront(t, l);
    if k.netloc {
      SamePieces(s.netloc, PathPart(s, k), t.netloc, PathPart(t, l), {SLASH, QUESTION, HASH});
    }
  }

  /** Reassembly is one to one on well-formed splits: `Split` finds the only one there is. */
  lemma RebuildInjective(s: Parts, k: Marks, t: Parts, l: Marks)
    requires WellFormed(s, k) && WellFormed(t, l) && Rebuild(s, k) == Rebuild(t, l)
    ensures s == t && k == l
  {
    SchemePartUnique(s, k, t, l);
    NetlocUnique(s, k, t, l);
    PathUnique(s, k, t, l);
    QueryUnique(s, k, t, l);
  }

  lemma PathUnique(s: Parts, k: Marks, t: Parts, l: Marks)
    requires WellFormed(s, k) && WellFormed(t, l) && PathPart(s, k) == PathPart(t, l)
    ensures s.path == t.path && QueryPart(s, k) == QueryPart(t, l)
  {
    hide Rebuild, HasScheme, SchemeAt, None, NetlocPart;
    SamePieces(s.path, QueryPart(s, k), t.path, QueryPart(t, l), {QUESTION, HASH});
  }

  lemma SchemePartUnique(s: Parts, k: Marks, t: Parts, l: Marks)
    requires WellFormed(s, k) && WellFormed(t, l) && Rebuild(s, k) == Rebuild(t, l)
    ensures s.scheme == t.scheme && k.scheme == l.scheme && NetlocPart(s, k) == NetlocPart(t, l)
  {
    hide SchemeAt, NetlocPart, None;
    var u := Rebuild(s, k);
    if k.scheme {
      assert SchemeAt(u, |s.scheme|);
      assert u[..|s.scheme|] == s.scheme && u[|s.scheme| + 1..] == NetlocPart(s, k);
    }
    if l.scheme {
      assert SchemeAt(u, |t.scheme|);
      assert u[..|t.scheme|] == t.scheme && u[|t.scheme| + 1..] == NetlocPart(t, l);
    }
    assert k.scheme == l.scheme;
    if k.scheme {
      SchemeUnique(u, |s.scheme|, |t.scheme|);
    } else {
      assert [] + NetlocPart(s, k) == NetlocPart(s, k) && [] + NetlocPart(t, l) == NetlocPart(t, l);
    }
  }

  /** So the five pieces of a URL are determined by it. */
  lemma SplitUnique(url: text, s: Parts, t: Parts)
    requires IsSplit(url, s) && IsSplit(url, t)
    ensures s == t
  {
    hide WellFormed, Rebuild;
    var k :| Rebuild(s, k) == url && WellFormed(s, k);
    var l :| Rebuild(t, l) == url && WellFormed(t, l);
    RebuildInjective(s, k, t, l);
  }

  /** The reassembly of a URL with scheme and authority splits into its parts and no others. */
  lemma SplitRebuilt(s: Parts, k: Marks)
    requires k.scheme && k.netloc && s.scheme != [] && IsLetter(s.scheme[0])
    requires forall i :: 0 < i < |s.scheme| ==> IsSchemeByte(s.scheme[i])
    requires None(s.netloc, {SLASH, QUESTION, HASH}) && None(s.path, {QUESTION, HASH}) && None(s.query, {HASH})
    requires s.path == [] || s.path[0] == SLASH
    requires (k.query || s.query == []) && (k.fragment || s.fragment == [])
    ensures forall r :: IsSplit(Rebuild(s, k), r) <==> r == s
  {
    AbsoluteWellFormed(s, k);
    hide WellFormed, Rebuild, None;
    var url := Rebuild(s, k);
    assert IsSplit(url, s);
    forall r | IsSplit(url, r) ensures r == s {
      SplitUnique(url, r, s);
    }
  }

  lemma AbsoluteWellFormed(s: Parts, k: Marks)
    requires k.scheme && k.netloc && s.scheme != [] && IsLetter(s.scheme[0])
    requires forall i :: 0 < i < |s.scheme| ==> IsSchemeByte(s.scheme[i])
    requires None(s.netloc, {SLASH, QUESTION, HASH}) && None(s.path, {QUESTION, HASH}) && None(s.query, {HASH})
    requires s.path == [] || s.path[0] == SLASH
    requires (k.query || s.query == []) && (k.fragment || s.fragment == [])
    ensures WellFormed(s, k)
  {
  }
}
