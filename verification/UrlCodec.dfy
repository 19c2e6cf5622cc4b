/** src/freedos_micro_python/port/urllib_parse_uc386dos.c: percent-encoding and query strings, on bytes. */
module UrlCodec {
  import opened Machine

  const PLUS: byte := 0x2B
  const SPACE: byte := 0x20
  const PERCENT: byte := 0x25
  const SLASH: byte := 0x2F
  const AMP: byte := 0x26
  const SEMI: byte := 0x3B
  const EQUALS: byte := 0x3D

  /** Section 2.3 of RFC 3986: letters, digits, and - _ . ~ */
  predicate IsUnreserved(c: byte)
  {
    || 0x41 <= c <= 0x5A || 0x61 <= c <= 0x7A || 0x30 <= c <= 0x39
    || c == 0x2D || c == 0x5F || c == 0x2E || c == 0x7E
  }

  /** -1 for a byte that is not a hexadecimal digit. */
  function HexValue(c: byte): (v: int)
    ensures -1 <= v < 16
  {
    if 0x30 <= c <= 0x39 then c - 0x30
    else if 0x41 <= c <= 0x46 then c - 0x41 + 10
    else if 0x61 <= c <= 0x66 then c - 0x61 + 10
    else -1
  }

  function HexDigit(n: nat): (c: byte)
    requires n < 16
    ensures HexValue(c) == n && IsUnreserved(c)
  {
    if n < 10 then 0x30 + n else 0x41 + n - 10
  }

  // ---- quote and unquote ----

  predicate Passes(c: byte, safe: seq<byte>, plus: bool)
  {
    IsUnreserved(c) || (!plus && safe == [] && c == SLASH) || c in safe
  }

  function QuoteByte(c: byte, safe: seq<byte>, plus: bool): (q: seq<byte>)
    ensures q != []
  {
    if plus && c == SPACE then [PLUS]
    else if Passes(c, safe, plus) then [c]
    else [PERCENT, HexDigit(c / 16), HexDigit(c % 16)]
  }

  function Quote(s: seq<byte>, safe: seq<byte>, plus: bool): seq<byte>
  {
    if s == [] then [] else QuoteByte(s[0], safe, plus) + Quote(s[1..], safe, plus)
  }

  predicate EscapeFrom(t: seq<byte>, i: nat)
  {
    i + 2 < |t| && t[i] == PERCENT && HexValue(t[i + 1]) >= 0 && HexValue(t[i + 2]) >= 0
  }

  function Unquote(t: seq<byte>, plus: bool): seq<byte>
  {
    if t == [] then []
    else if plus && t[0] == PLUS then [SPACE] + Unquote(t[1..], plus)
    else if EscapeFrom(t, 0) then [HexValue(t[1]) * 16 + HexValue(t[2])] + Unquote(t[3..], plus)
    else [t[0]] + Unquote(t[1..], plus)
  }

  lemma QuoteStep(s: seq<byte>, i: nat, safe: seq<byte>, plus: bool)
    requires i < |s|
    ensures Quote(s[i..], safe, plus) == QuoteByte(s[i], safe, plus) + Quote(s[i + 1..], safe, plus)
  {
  }

  /** How unquoting a suffix goes on, by the form of its front. */
  lemma UnquoteStep(t: seq<byte>, i: nat, plus: bool)
    requires i < |t|
    ensures plus && t[i] == PLUS ==> Unquote(t[i..], plus) == [SPACE] + Unquote(t[i + 1..], plus)
    ensures !(plus && t[i] == PLUS) && EscapeFrom(t, i) ==>
              Unquote(t[i..], plus) == [HexValue(t[i + 1]) * 16 + HexValue(t[i + 2])] + Unquote(t[i + 3..], plus)
    ensures !(plus && t[i] == PLUS) && !EscapeFrom(t, i) ==>
              Unquote(t[i..], plus) == [t[i]] + Unquote(t[i + 1..], plus)
  {
    hide HexValue;
    assert t[i..][1..] == t[i + 1..];
    if i + 2 < |t| {
      assert t[i..][3..] == t[i + 3..];
    }
  }

  /** The inner part of the loop in `quote_inner`. */
  method Passthrough(c: byte, safe: seq<byte>, plus: bool) returns (passthrough: bool)
    ensures passthrough == Passes(c, safe, plus)
  {
    hide IsUnreserved;
    var defaultSafeSlash := !plus && |safe| == 0;
    passthrough := IsUnreserved(c);
    if !passthrough {
      if defaultSafeSlash && c == SLASH {
        passthrough := true;
      }
      var j := 0;
      while j < |safe|
        invariant 0 <= j <= |safe| && c !in safe[..j]
        invariant passthrough == (defaultSafeSlash && c == SLASH)
      {
        if c == safe[j] {
          passthrough := true;
          break;
        }
        j := j + 1;
      }
    }
  }

  method QuoteInner(src: seq<byte>, safe: seq<byte>, plus: bool) returns (vstr: seq<byte>)
    ensures vstr == Quote(src, safe, plus)
  {
    hide Quote, Passes, HexDigit;
    vstr := [];
    var i := 0;
    assert src[0..] == src;
    while i < |src|
      invariant 0 <= i <= |src|
      invariant vstr + Quote(src[i..], safe, plus) == Quote(src, safe, plus)
    {
      var c := src[i];
      var passthrough := Passthrough(c, safe, plus);
      ghost var before := vstr;
      if plus && c == SPACE {
        vstr := vstr + [PLUS];
      } else if passthrough {
        vstr := vstr + [c];
      } else {
        vstr := vstr + [PERCENT, HexDigit(c / 16), HexDigit(c % 16)];
      }
      assert vstr == before + QuoteByte(c, safe, plus);
      QuoteStep(src, i, safe, plus);
      i := i + 1;
    }
    QuoteEmpty(src[i..], safe, plus);
  }

  lemma QuoteEmpty(s: seq<byte>, safe: seq<byte>, plus: bool)
    requires s == []
    ensures Quote(s, safe, plus) == [] && Unquote(s, plus) == []
  {
  }

  method DoUnquote(src: seq<byte>, plus: bool) returns (vstr: seq<byte>)
    ensures vstr == Unquote(src, plus)
  {
    hide Unquote, HexValue;
    vstr := [];
    var i := 0;
    var n := |src|;
    assert src[0..] == src;
    while i < n
      invariant 0 <= i <= n
      invariant vstr + Unquote(src[i..], plus) == Unquote(src, plus)
    {
      var c := src[i];
      UnquoteStep(src, i, plus);
      if plus && c == PLUS {
        vstr := vstr + [SPACE];
      } else if c == PERCENT && i + 2 < n {
        var hi := HexValue(src[i + 1]);
        var lo := HexValue(src[i + 2]);
        if hi >= 0 && lo >= 0 {
          vstr := vstr + [hi * 16 + lo];
          i := i + 2;
        } else {
          vstr := vstr + [c];
        }
      } else {
        vstr := vstr + [c];
      }
      i := i + 1;
    }
    QuoteEmpty(src[i..], [], plus);
  }

  /** The safe sets under which a quoted string can be read back. */
  predicate Reversible(safe: seq<byte>, plus: bool)
  {
    PERCENT !in safe && (plus ==> PLUS !in safe)
  }

  lemma {:induction false} UnquoteQuote(s: seq<byte>, safe: seq<byte>, plus: bool)
    requires Reversible(safe, plus)
    ensures Unquote(Quote(s, safe, plus), plus) == s
  {
    if s != [] {
      UnquoteQuote(s[1..], safe, plus);
      UnquoteHead(s[0], safe, plus, Quote(s[1..], safe, plus));
      assert s == [s[0]] + s[1..];
    }
  }

  lemma UnquoteHead(c: byte, safe: seq<byte>, plus: bool, rest: seq<byte>)
    requires Reversible(safe, plus)
    ensures Unquote(QuoteByte(c, safe, plus) + rest, plus) == [c] + Unquote(rest, plus)
  {
    hide Unquote, HexValue, HexDigit;
    var q := QuoteByte(c, safe, plus);
    var t := q + rest;
    UnquoteStep(t, 0, plus);
    assert t[0..] == t;
    if |q| == 1 {
      assert t[1..] == rest;
      NotSpecial();
    } else {
      assert t[1] == HexDigit(c / 16) && t[2] == HexDigit(c % 16) && t[3..] == rest;
    }
  }

  lemma NotSpecial()
    ensures !IsUnreserved(PERCENT) && !IsUnreserved(PLUS)
  {
  }

  /** Every string survives quoting and unquoting exactly under a reversible safe set. */
  lemma QuoteReversible(safe: seq<byte>, plus: bool)
    ensures (forall s :: Unquote(Quote(s, safe, plus), plus) == s) <==> Reversible(safe, plus)
  {
    if Reversible(safe, plus) {
      forall s ensures Unquote(Quote(s, safe, plus), plus) == s {
        UnquoteQuote(s, safe, plus);
      }
    } else {
      var s := QuoteWitness(safe, plus);
    }
  }

  /** "%41" comes back as "A", and "+" as " ". */
  lemma QuoteWitness(safe: seq<byte>, plus: bool) returns (s: seq<byte>)
    requires !Reversible(safe, plus)
    ensures Unquote(Quote(s, safe, plus), plus) != s
  {
    if PERCENT in safe {
      s := [PERCENT, 0x34, 0x31];
      QuoteThree(PERCENT, 0x34, 0x31, safe, plus);
      assert Quote(s, safe, plus) == s;
      assert EscapeFrom(s, 0);
      assert Unquote(s, plus)[0] == 0x41;
    } else {
      s := [PLUS];
      assert QuoteByte(PLUS, safe, plus) == [PLUS] && s[1..] == [];
      assert Quote(s, safe, plus) == [PLUS];
      assert Unquote([PLUS], plus)[0] == SPACE;
    }
  }

  lemma QuoteThree(a: byte, b: byte, c: byte, safe: seq<byte>, plus: bool)
    ensures Quote([a, b, c], safe, plus)
         == QuoteByte(a, safe, plus) + QuoteByte(b, safe, plus) + QuoteByte(c, safe, plus)
  {
    assert [a, b, c][1..] == [b, c] && [b, c][1..] == [c] && [c][1..] == [];
    assert Quote([c], safe, plus) == QuoteByte(c, safe, plus) + [];
  }

  // ---- the alphabets, written out ----

  const UPPER: string := "0123456789ABCDEF"
  const LOWER: string := "0123456789abcdef"

  /** A digit of either case has its place in the list as its value, and nothing else is a digit. */
  lemma HexDigits(n: nat)
    requires n < 16
    ensures |UPPER| == |LOWER| == 16 && UPPER[n] as int < 256 && LOWER[n] as int < 256
    ensures HexValue(UPPER[n] as int) == n && HexValue(LOWER[n] as int) == n
  {
  }

  lemma HexExactly(c: byte)
    ensures HexValue(c) == -1 <==> c as char !in "0123456789ABCDEFabcdef"
  {
  }

  /** What is written is the upper-case digit. */
  lemma HexDigitUpper(n: nat)
    requires n < 16
    ensures |UPPER| == 16 && HexDigit(n) == UPPER[n] as int
  {
  }

  lemma Separators()
    ensures AMP == '&' as int && SEMI == ';' as int && EQUALS == '=' as int
    ensures PLUS == '+' as int && SPACE == ' ' as int && PERCENT == '%' as int && SLASH == '/' as int
  {
  }

  /** The 66 unreserved bytes. */
  lemma UnreservedExactly(c: byte)
    ensures IsUnreserved(c) <==>
            || c as char in "ABCDEFGHIJKLMNOPQRSTUVWXYZ" || c as char in "abcdefghijklmnopqrstuvwxyz"
            || c as char in "0123456789" || c as char in "-_.~"
  {
    UpperLetters(c);
    LowerLetters(c);
  }

  lemma UpperLetters(c: byte)
    ensures c as char in "ABCDEFGHIJKLMNOPQRSTUVWXYZ" <==> 0x41 <= c <= 0x5A
  {
  }

  lemma LowerLetters(c: byte)
    ensures c as char in "abcdefghijklmnopqrstuvwxyz" <==> 0x61 <= c <= 0x7A
  {
  }

  /** "%" and two digits of either case are read as one byte, in either mode. */
  lemma UnquoteEscape(hi: byte, lo: byte, rest: seq<byte>, plus: bool)
    requires HexValue(hi) >= 0 && HexValue(lo) >= 0
    ensures Unquote(['%' as int, hi, lo] + rest, plus) == [HexValue(hi) * 16 + HexValue(lo)] + Unquote(rest, plus)
  {
    hide *;
    var t := [PERCENT, hi, lo] + rest;
    Separators();
    EscapeFront(hi, lo, rest);
    UnquoteStep(t, 0, plus);
    assert t[0..] == t && t[3..] == rest;
  }

  lemma EscapeFront(hi: byte, lo: byte, rest: seq<byte>)
    requires HexValue(hi) >= 0 && HexValue(lo) >= 0
    ensures EscapeFrom([PERCENT, hi, lo] + rest, 0) && PERCENT != PLUS
  {
    hide HexValue;
  }

  /** "%2f" and "%2F" are both a slash. */
  lemma UnquoteSlash(rest: seq<byte>, plus: bool)
    ensures Unquote(['%' as int, '2' as int, 'f' as int] + rest, plus) == ['/' as int] + Unquote(rest, plus)
    ensures Unquote(['%' as int, '2' as int, 'F' as int] + rest, plus) == ['/' as int] + Unquote(rest, plus)
  {
    hide Unquote;
    UnquoteEscape('2' as int, 'f' as int, rest, plus);
    UnquoteEscape('2' as int, 'F' as int, rest, plus);
  }

  /** Any other byte passes, but "+" is a space in plus mode. */
  lemma UnquoteOther(c: byte, rest: seq<byte>, plus: bool)
    requires c != '%' as int
    ensures Unquote([c] + rest, plus)
         == [if plus && c == '+' as int then ' ' as int else c] + Unquote(rest, plus)
  {
    hide HexValue, Unquote;
    var t := [c] + rest;
    UnquoteStep(t, 0, plus);
    assert t[0..] == t && t[1..] == rest;
  }

  /** How a byte is quoted: as itself, as "+", or as "%" and two upper-case digits. */
  lemma QuoteByteExactly(c: byte, safe: seq<byte>, plus: bool)
    ensures |UPPER| == 16
    ensures QuoteByte(c, safe, plus) ==
            if plus && c == ' ' as int then ['+' as int]
            else if IsUnreserved(c) || c in safe || (!plus && safe == [] && c == '/' as int) then [c]
            else ['%' as int, UPPER[c / 16] as int, UPPER[c % 16] as int]
  {
    hide HexDigit, IsUnreserved, UPPER;
    HexDigitUpper(c / 16);
    HexDigitUpper(c % 16);
  }

  // ---- urlencode and parse_qsl ----

  type text = seq<byte>

  datatype Pair = Pair(key: text, value: text)

  function EncodePair(p: Pair): text
  {
    Quote(p.key, [], true) + [EQUALS] + Quote(p.value, [], true)
  }

  /** `first` is the code's flag: no separator goes before the first pair. */
  function Encode(pairs: seq<Pair>, first: bool): text
  {
    if pairs == [] then []
    else (if first then [] else [AMP]) + EncodePair(pairs[0]) + Encode(pairs[1..], false)
  }

  method UrlEncode(pairs: seq<Pair>) returns (vstr: text)
    ensures vstr == Encode(pairs, true)
  {
    hide *;
    vstr := [];
    var first := true;
    var i := 0;
    assert pairs[0..] == pairs;
    NoPiece(Encode(pairs, true));
    while i < |pairs|
      invariant 0 <= i <= |pairs|
      invariant vstr + Encode(pairs[i..], first) == Encode(pairs, true)
    {
      EncodeStep(pairs, i, first);
      ghost var before := vstr;
      ghost var sep := if first then [] else [AMP];
      if !first {
        vstr := vstr + [AMP];
      }
      NoPiece(before);
      first := false;
      var pair := EncodeOne(pairs[i]);
      vstr := vstr + pair;
      FourPieces(before, sep, pair, Encode(pairs[i + 1..], false));
      i := i + 1;
    }
    EncodeStep(pairs, i, first);
    NoPiece(vstr);
  }

  lemma FourPieces(a: text, b: text, c: text, d: text)
    ensures a + b + c + d == a + (b + c + d)
  {
  }

  lemma NoPiece(a: text)
    ensures a + [] == a && [] + a == a
  {
  }

  /** The rest of `urlencode_pair`, behind the separator. */
  method EncodeOne(p: Pair) returns (vstr: text)
    ensures vstr == EncodePair(p)
  {
    hide Quote;
    var k := QuoteInner(p.key, [], true);
    vstr := k + [EQUALS];
    var v := QuoteInner(p.value, [], true);
    vstr := vstr + v;
  }

  lemma EncodeStep(pairs: seq<Pair>, i: nat, first: bool)
    requires i <= |pairs|
    ensures Encode(pairs[i..], first) ==
            if i == |pairs| then []
            else (if first then [] else [AMP]) + EncodePair(pairs[i]) + Encode(pairs[i + 1..], false)
  {
    hide EncodePair;
    if i < |pairs| {
      assert pairs[i..][1..] == pairs[i + 1..];
    }
  }

  /** Position of the first byte of `stops` in `s`, or the length. */
  function Find(s: text, stops: set<byte>): (i: nat)
    ensures i <= |s|
    ensures forall k :: 0 <= k < i ==> s[k] !in stops
    ensures i < |s| ==> s[i] in stops
  {
    if s == [] || s[0] in stops then 0 else 1 + Find(s[1..], stops)
  }

  lemma FindUnique(s: text, stops: set<byte>, i: nat)
    requires i <= |s|
    requires forall k :: 0 <= k < i ==> s[k] !in stops
    requires i < |s| ==> s[i] in stops
    ensures Find(s, stops) == i
  {
  }

  function ParsePair(seg: text, keep: bool): seq<Pair>
  {
    var eq := Find(seg, {EQUALS});
    var key := seg[..eq];
    var value := if eq < |seg| then seg[eq + 1..] else [];
    if key != [] && (value != [] || keep) then [Pair(Unquote(key, true), Unquote(value, true))] else []
  }

  /** What is left to parse from position `i` on; the code may step one past the end. */
  function Left(qs: text, i: nat): text
  {
    if i < |qs| then qs[i..] else []
  }

  function Parse(qs: text, keep: bool): seq<Pair>
    decreases |qs|
  {
    if qs == [] then []
    else
      var e := Find(qs, {AMP, SEMI});
      ParsePair(qs[..e], keep) + Parse(Left(qs, e + 1), keep)
  }

  method FindFrom(s: text, from: nat, to: nat, stops: set<byte>) returns (i: nat)
    requires from <= to <= |s|
    ensures i == from + Find(s[from..to], stops)
    ensures from <= i <= to && (i < to ==> s[i] in stops)
    ensures forall k :: from <= k < i ==> s[k] !in stops
  {
    i := from;
    while i < to && s[i] !in stops
      invariant from <= i <= to
      invariant forall k :: from <= k < i ==> s[k] !in stops
    {
      i := i + 1;
    }
    FindUnique(s[from..to], stops, i - from);
  }

  /** One turn of the loop in `parse_qsl`, on the segment `qs[i..pairEnd]`. */
  method ParseSegment(qs: text, i: nat, pairEnd: nat, keep: bool) returns (result: seq<Pair>)
    requires i <= pairEnd <= |qs|
    ensures result == ParsePair(qs[i..pairEnd], keep)
  {
    hide Unquote, Find;
    ghost var seg := qs[i..pairEnd];
    var eq := FindFrom(qs, i, pairEnd, {EQUALS});
    var keyLen := eq - i;
    var valOff := if eq < pairEnd then eq + 1 else pairEnd;
    var valLen := pairEnd - valOff;
    assert seg[..keyLen] == qs[i..i + keyLen];
    assert eq < pairEnd ==> seg[keyLen + 1..] == qs[valOff..valOff + valLen];
    result := [];
    if keyLen > 0 && (valLen > 0 || keep) {
      var key := DoUnquote(qs[i..i + keyLen], true);
      var value := DoUnquote(qs[valOff..valOff + valLen], true);
      result := [Pair(key, value)];
    }
  }

  lemma LeftEnds(qs: text)
    ensures Left(qs, 0) == qs && forall i :: i >= |qs| ==> Left(qs, i) == []
  {
  }

  lemma ParseUnfold(t: text, keep: bool)
    requires t != []
    ensures var e := Find(t, {AMP, SEMI});
            Parse(t, keep) == ParsePair(t[..e], keep) + Parse(Left(t, e + 1), keep)
  {
  }

  lemma ParseStep(qs: text, i: nat, keep: bool)
    requires i < |qs|
    ensures var e := i + Find(qs[i..], {AMP, SEMI});
            Parse(Left(qs, i), keep) == ParsePair(qs[i..e], keep) + Parse(Left(qs, e + 1), keep)
  {
    hide *;
    var e := Find(qs[i..], {AMP, SEMI});
    ParseUnfold(qs[i..], keep);
    Slices(qs, i, e);
  }

  lemma Slices(qs: text, i: nat, e: nat)
    requires i < |qs| && i + e <= |qs|
    ensures Left(qs, i) == qs[i..] && qs[i..][..e] == qs[i..i + e]
    ensures Left(qs[i..], e + 1) == Left(qs, i + e + 1)
  {
  }

  method ParseQsl(qs: text, keep: bool) returns (result: seq<Pair>)
    ensures result == Parse(qs, keep)
  {
    hide ParsePair, Find, Parse, Left;
    var n := |qs|;
    result := [];
    var i := 0;
    LeftEnds(qs);
    while i < n
      invariant 0 <= i
      invariant result + Parse(Left(qs, i), keep) == Parse(qs, keep)
      decreases n - i
    {
      var pairEnd := FindFrom(qs, i, n, {AMP, SEMI});
      assert qs[i..n] == qs[i..];
      ParseStep(qs, i, keep);
      var found := ParseSegment(qs, i, pairEnd, keep);
      result := result + found;
      i := pairEnd + 1;
    }
    ParseNothing(keep);
  }

  lemma ParseNothing(keep: bool)
    ensures Parse([], keep) == []
  {
  }

  // ---- the round trip ----

  ghost predicate Plain(s: text)
  {
    forall k :: 0 <= k < |s| ==> s[k] != AMP && s[k] != SEMI && s[k] != EQUALS
  }

  lemma {:induction false} QuotedPlain(s: text)
    ensures Plain(Quote(s, [], true))
    ensures Quote(s, [], true) == [] <==> s == []
  {
    if s != [] {
      hide HexDigit;
      QuotedPlain(s[1..]);
      assert Plain(QuoteByte(s[0], [], true));
    }
  }

  /** The pairs a parse keeps: empty keys always go, empty values unless asked for. */
  function Kept(pairs: seq<Pair>, keep: bool): seq<Pair>
  {
    if pairs == [] then []
    else (if pairs[0].key != [] && (pairs[0].value != [] || keep) then [pairs[0]] else []) + Kept(pairs[1..], keep)
  }

  lemma ParseEncodedPair(p: Pair, keep: bool)
    ensures ParsePair(EncodePair(p), keep) == Kept([p], keep)
    ensures forall k :: 0 <= k < |EncodePair(p)| ==> EncodePair(p)[k] != AMP && EncodePair(p)[k] != SEMI
  {
    hide Quote, Unquote, Find;
    var k, v := Quote(p.key, [], true), Quote(p.value, [], true);
    QuotedPlain(p.key);
    QuotedPlain(p.value);
    UnquoteQuote(p.key, [], true);
    UnquoteQuote(p.value, [], true);
    var seg := EncodePair(p);
    FindUnique(seg, {EQUALS}, |k|);
    assert seg[..|k|] == k && seg[|k| + 1..] == v;
    assert [p][1..] == [];
  }

  /** A segment is cut at its first "="; without one the value is empty. */
  lemma SegmentLaw(key: text, value: text, keep: bool)
    requires forall k :: 0 <= k < |key| ==> key[k] != '=' as int
    ensures ParsePair(key + ['=' as int] + value, keep) ==
            if key != [] && (value != [] || keep) then [Pair(Unquote(key, true), Unquote(value, true))] else []
    ensures ParsePair(key, keep) == if key != [] && keep then [Pair(Unquote(key, true), [])] else []
  {
    hide Unquote, Find;
    var seg := key + ['=' as int] + value;
    FindUnique(seg, {EQUALS}, |key|);
    FindUnique(key, {EQUALS}, |key|);
    assert seg[..|key|] == key && seg[|key| + 1..] == value && key[..|key|] == key;
    QuoteEmpty([], [], true);
  }

  /** One pair is written as its two quoted parts with "=" between them, and kept unless something is empty. */
  lemma PairLaw(p: Pair, keep: bool)
    ensures EncodePair(p) == Quote(p.key, [], true) + ['=' as int] + Quote(p.value, [], true)
    ensures Kept([p], keep) == if p.key != [] && (p.value != [] || keep) then [p] else []
  {
    hide Quote;
    assert [p][1..] == [];
  }

  /** A segment without separators is parsed on its own. */
  lemma ParseFront(head: text, rest: text, keep: bool)
    requires head != [] && forall k :: 0 <= k < |head| ==> head[k] != AMP && head[k] != SEMI
    ensures Parse(head, keep) == ParsePair(head, keep)
    ensures Parse(head + [AMP] + rest, keep) == ParsePair(head, keep) + Parse(rest, keep)
  {
    hide ParsePair, Find;
    var qs := head + [AMP] + rest;
    FindUnique(head, {AMP, SEMI}, |head|);
    FindUnique(qs, {AMP, SEMI}, |head|);
    assert head[..|head|] == head && qs[..|head|] == head && qs[|head| + 1..] == rest;
    ParseNothing(keep);
  }

  lemma EncodeFront(pairs: seq<Pair>)
    requires pairs != []
    ensures Encode(pairs, true) == if |pairs| == 1 then EncodePair(pairs[0])
                                   else EncodePair(pairs[0]) + [AMP] + Encode(pairs[1..], true)
  {
    hide EncodePair;
    var head, rest := EncodePair(pairs[0]), pairs[1..];
    Concats([], head, Encode(rest, false));
    if rest != [] {
      EncodeSeparator(rest);
      Concats(head, [AMP], Encode(rest, true));
    }
  }

  lemma EncodeSeparator(pairs: seq<Pair>)
    requires pairs != []
    ensures Encode(pairs, false) == [AMP] + Encode(pairs, true)
  {
    hide EncodePair;
    Concats([AMP], EncodePair(pairs[0]), Encode(pairs[1..], false));
  }

  lemma KeptFront(pairs: seq<Pair>, keep: bool)
    requires pairs != []
    ensures Kept(pairs, keep) == Kept([pairs[0]], keep) + Kept(pairs[1..], keep)
  {
    assert [pairs[0]][1..] == [];
  }

  /** Parsing an encoded list gives the list back, less the pairs a parse drops. */
  lemma {:induction false} ParseEncode(pairs: seq<Pair>, keep: bool)
    ensures Parse(Encode(pairs, true), keep) == Kept(pairs, keep)
  {
    if pairs != [] {
      hide *;
      ParseEncode(pairs[1..], keep);
      ParseEncodedPair(pairs[0], keep);
      EncodedPairNonEmpty(pairs[0]);
      ParseFront(EncodePair(pairs[0]), Encode(pairs[1..], true), keep);
      EncodeFront(pairs);
      KeptFront(pairs, keep);
      if |pairs| == 1 {
        KeptNothing(keep);
        assert pairs[1..] == [];
      }
    } else {
      ParseNothing(keep);
    }
  }

  lemma KeptNothing(keep: bool)
    ensures Kept([], keep) == []
  {
  }

  lemma EncodedPairNonEmpty(p: Pair)
    ensures EncodePair(p) != []
  {
  }
}
