/** src/freedos_micro_python/gen_qstrdefs.py: reading escaped macro names back, and the string hash. */
module Qstr {
  import opened Machine
  import opened Bits

  // ---- the escape, as the generator's documentation gives it ----

  predicate IsIdent(c: char)
  {
    'a' <= c <= 'z' || 'A' <= c <= 'Z' || '0' <= c <= '9' || c == '_'
  }

  function HexChar(n: nat): (c: char)
    requires n < 16
    ensures IsHexChar(c) && HexDigit(c) == n && c != '_'
  {
    if n < 10 then ('0' as int + n) as char else ('a' as int + n - 10) as char
  }

  predicate IsHexChar(c: char) { '0' <= c <= '9' || 'a' <= c <= 'f' }

  function HexDigit(c: char): nat
    requires IsHexChar(c)
  {
    if '0' <= c <= '9' then c as int - '0' as int else c as int - 'a' as int + 10
  }

  /** The identifier characters, the digits of a form and the characters with an entity name, written out. */
  lemma Alphabets(c: char)
    ensures IsIdent(c) <==>
            || c in "abcdefghijklmnopqrstuvwxyz" || c in "ABCDEFGHIJKLMNOPQRSTUVWXYZ"
            || c in "0123456789" || c == '_'
  {
    LowerCase(c);
    UpperCase(c);
    Digits(c);
  }

  lemma Digits(c: char)
    ensures c in "0123456789" <==> '0' <= c <= '9'
  {
  }

  lemma HexAlphabet(c: char)
    ensures IsHexChar(c) <==> c in "0123456789abcdef"
  {
  }

  lemma LowerCase(c: char)
    ensures c in "abcdefghijklmnopqrstuvwxyz" <==> 'a' <= c <= 'z'
  {
  }

  lemma UpperCase(c: char)
    ensures c in "ABCDEFGHIJKLMNOPQRSTUVWXYZ" <==> 'A' <= c <= 'Z'
  {
  }

  lemma HexChars(n: nat)
    requires n < 16
    ensures |"0123456789abcdef"| == 16 && HexChar(n) == "0123456789abcdef"[n] && HexDigit("0123456789abcdef"[n]) == n
  {
  }

  /** codepoint2name */
  type names = map<char, string>

  /** name2char */
  type table = map<string, char>

  /** Printable ASCII that is not an identifier character: the filter on name2char. */
  predicate Punctuation(c: char) { 32 <= c as int <= 126 && !IsIdent(c) }

  /** `t` is the inverse of `n` that the comprehension builds, names being distinct. */
  ghost predicate Inverts(t: table, n: names)
  {
    && (forall c :: c in n && Punctuation(c) ==> n[c] in t && t[n[c]] == c)
    && (forall s :: s in t ==> Punctuation(t[s]) && t[s] in n && n[t[s]] == s)
  }

  /** The name between the underscores: an entity name, or 0x and two digits. */
  function Name(n: names, c: char): string
    requires c in n || c as int < 256
  {
    if c in n then n[c] else ['0', 'x', HexChar(c as int / 16), HexChar(c as int % 16)]
  }

  predicate Writable(n: names, c: char) { IsIdent(c) || c in n || c as int < 256 }

  function EscapeChar(n: names, c: char): string
    requires Writable(n, c)
  {
    if IsIdent(c) then [c] else ['_'] + Name(n, c) + ['_']
  }

  function Escape(n: names, s: string): string
    requires forall i :: 0 <= i < |s| ==> Writable(n, s[i])
  {
    if s == [] then [] else EscapeChar(n, s[0]) + Escape(n, s[1..])
  }

  // ---- unescape ----

  predicate IsHexForm(s: string)
  {
    |s| == 4 && s[0] == '0' && s[1] == 'x' && IsHexChar(s[2]) && IsHexChar(s[3])
  }

  predicate Known(t: table, s: string) { s in t || IsHexForm(s) }

  function NameChar(t: table, s: string): char
    requires Known(t, s)
  {
    if s in t then t[s] else (HexDigit(s[2]) * 16 + HexDigit(s[3])) as char
  }

  predicate ClosesAt(t: table, s: string, k: nat)
    requires s != []
  {
    1 <= k < |s| && s[k] == '_' && Known(t, s[1..k])
  }

  /** First position from `j` on that closes a known name opened at 0; the length if there is none. */
  function Close(t: table, s: string, j: nat): (k: nat)
    requires s != [] && 1 <= j <= |s|
    ensures j <= k <= |s|
    ensures forall i :: j <= i < k ==> !ClosesAt(t, s, i)
    ensures k < |s| ==> ClosesAt(t, s, k)
    decreases |s| - j
  {
    if j == |s| || ClosesAt(t, s, j) then j else Close(t, s, j + 1)
  }

  function Unescape(t: table, s: string): string
    decreases |s|
  {
    if s == [] then []
    else if s[0] != '_' then [s[0]] + Unescape(t, s[1..])
    else
      var k := Close(t, s, 1);
      if k < |s| then [NameChar(t, s[1..k])] + Unescape(t, s[k + 1..])
      else ['_'] + Unescape(t, s[1..])
  }

  /** str.find("_", j), with the length for -1. */
  method FindUnderscore(s: string, j: nat) returns (k: nat)
    requires j <= |s|
    ensures j <= k <= |s| && (k < |s| ==> s[k] == '_')
    ensures forall i :: j <= i < k ==> s[i] != '_'
  {
    k := j;
    while k < |s| && s[k] != '_'
      invariant j <= k <= |s|
      invariant forall i :: j <= i < k ==> s[i] != '_'
    {
      k := k + 1;
    }
  }

  /** The inner loop: every later underscore is tried in turn. */
  method Match(t: table, s: string, i: nat) returns (k: nat)
    requires i < |s|
    ensures k == i + Close(t, s[i..], 1)
  {
    hide Known;
    ghost var u := s[i..];
    var j := i + 1;
    k := |s|;
    while true
      invariant i + 1 <= j <= |s| && k == |s|
      invariant forall m :: 1 <= m < j - i ==> !ClosesAt(t, u, m)
      decreases |s| - j
    {
      var f := FindUnderscore(s, j);
      assert forall m :: j - i <= m < f - i ==> u[m] == s[i + m];
      if f == |s| {
        CloseUnique(t, u, |u|);
        return;
      }
      var candidate := s[i + 1..f];
      assert candidate == u[1..f - i] && u[f - i] == '_';
      if Known(t, candidate) {
        CloseUnique(t, u, f - i);
        k := f;
        return;
      }
      j := f + 1;
    }
  }

  lemma CloseUnique(t: table, s: string, k: nat)
    requires s != [] && 1 <= k <= |s|
    requires forall i :: 1 <= i < k ==> !ClosesAt(t, s, i)
    requires k < |s| ==> ClosesAt(t, s, k)
    ensures Close(t, s, 1) == k
  {
  }

  method UnescapeTail(t: table, s: string) returns (out: string)
    ensures out == Unescape(t, s)
  {
    hide Unescape, Close, Known, NameChar;
    out := [];
    var i := 0;
    assert s[0..] == s;
    while i < |s|
      invariant 0 <= i <= |s|
      invariant out + Unescape(t, s[i..]) == Unescape(t, s)
    {
      UnescapeStep(t, s, i);
      var c := s[i];
      if c != '_' {
        out := out + [c];
        i := i + 1;
      } else {
        var k := Match(t, s, i);
        if k < |s| {
          out := out + [NameChar(t, s[i + 1..k])];
          i := k + 1;
        } else {
          out := out + ['_'];
          i := i + 1;
        }
      }
    }
    UnescapeNothing(t, s[i..]);
  }

  lemma UnescapeNothing(t: table, s: string)
    requires s == []
    ensures Unescape(t, s) == []
  {
  }

  lemma UnescapeUnfold(t: table, u: string)
    requires u != []
    ensures u[0] != '_' ==> Unescape(t, u) == [u[0]] + Unescape(t, u[1..])
    ensures u[0] == '_' ==>
              var k := Close(t, u, 1);
              && (k < |u| ==>
                    Known(t, u[1..k]) && Unescape(t, u) == [NameChar(t, u[1..k])] + Unescape(t, u[k + 1..]))
              && (k == |u| ==> Unescape(t, u) == ['_'] + Unescape(t, u[1..]))
  {
    hide Close, Known, NameChar;
  }

  lemma Suffixes(s: string, i: nat, k: nat)
    requires i < |s| && i + 1 <= i + k <= |s|
    ensures s[i..] != [] && s[i..][0] == s[i] && s[i..][1..] == s[i + 1..]
    ensures s[i..][1..k] == s[i + 1..i + k]
    ensures i + k < |s| ==> s[i..][k + 1..] == s[i + k + 1..]
  {
  }

  lemma UnescapeStep(t: table, s: string, i: nat)
    requires i < |s|
    ensures s[i] != '_' ==> Unescape(t, s[i..]) == [s[i]] + Unescape(t, s[i + 1..])
    ensures s[i] == '_' ==>
              var k := i + Close(t, s[i..], 1);
              && (k < |s| ==>
                    && Known(t, s[i + 1..k])
                    && Unescape(t, s[i..]) == [NameChar(t, s[i + 1..k])] + Unescape(t, s[k + 1..]))
              && (k == |s| ==> Unescape(t, s[i..]) == ['_'] + Unescape(t, s[i + 1..]))
  {
    hide *;
    Suffixes(s, i, Close(t, s[i..], 1));
    UnescapeUnfold(t, s[i..]);
  }

  // ---- when unescape inverts the escape ----

  /** No name, cut at an underscore inside it, is itself known, and no name looks like a 0xNN form. */
  ghost predicate Unambiguous(t: table)
  {
    && (forall s, p :: s in t && 0 <= p < |s| && s[p] == '_' ==> !Known(t, s[..p]))
    && (forall s :: s in t ==> !IsHexForm(s))
  }

  /** A character whose escape has a name the reader knows. */
  predicate Readable(n: names, c: char)
  {
    IsIdent(c) || (if c in n then Punctuation(c) else c as int < 256)
  }

  ghost predicate AllReadable(n: names, s: string) { forall i :: 0 <= i < |s| ==> Readable(n, s[i]) }

  /** Some underscore later closes a known name that the underscore at the front would open. */
  predicate Opens(t: table, u: string)
    requires u != []
  {
    Close(t, u, 1) < |u|
  }

  /** No literal underscore of `s` opens a known name in the escaped text. */
  ghost predicate Quiet(n: names, t: table, s: string)
    requires AllReadable(n, s)
  {
    forall i :: 0 <= i < |s| && s[i] == '_' ==> !OpensFrom(n, t, s, i)
  }

  ghost predicate OpensFrom(n: names, t: table, s: string, i: nat)
    requires AllReadable(n, s) && i < |s| && s[i] == '_'
  {
    EscapeKeeps(n, s, i);
    Opens(t, Escape(n, s[i..]))
  }

  lemma EscapeKeeps(n: names, s: string, i: nat)
    requires AllReadable(n, s) && i < |s|
    ensures forall k :: 0 <= k < |s[i..]| ==> Writable(n, s[i..][k])
    ensures s[i] == '_' ==> Escape(n, s[i..]) != []
  {
  }

  /** The reader finds the whole name of an escaped character, and reads the character back. */
  lemma CloseName(n: names, t: table, c: char, rest: string)
    requires Inverts(t, n) && Unambiguous(t) && Readable(n, c) && !IsIdent(c)
    ensures var name := Name(n, c);
            Close(t, ['_'] + name + ['_'] + rest, 1) == 1 + |name| && Known(t, name) && NameChar(t, name) == c
  {
    hide Punctuation;
    var name := Name(n, c);
    var u := ['_'] + name + ['_'] + rest;
    NameKnown(n, t, c);
    Slices(name, rest);
    forall i | 1 <= i < 1 + |name| ensures !ClosesAt(t, u, i) {
      if u[i] == '_' {
        InnerSlice(name, rest, i);
        if c in n {
          assert name in t;
        }
      }
    }
    CloseUnique(t, u, 1 + |name|);
  }

  lemma InnerSlice(name: string, rest: string, i: nat)
    requires 1 <= i < 1 + |name|
    ensures var u := ['_'] + name + ['_'] + rest; u[i] == name[i - 1] && u[1..i] == name[..i - 1]
  {
  }

  lemma NameKnown(n: names, t: table, c: char)
    requires Inverts(t, n) && Unambiguous(t) && Readable(n, c) && !IsIdent(c)
    ensures var name := Name(n, c); Known(t, name) && NameChar(t, name) == c
    ensures c !in n ==> forall i :: 0 <= i < |Name(n, c)| ==> Name(n, c)[i] != '_'
  {
  }

  lemma UnescapeFront(n: names, t: table, c: char, rest: string)
    requires Inverts(t, n) && Unambiguous(t) && Readable(n, c)
    requires c == '_' ==> !Opens(t, ['_'] + rest)
    ensures Unescape(t, EscapeChar(n, c) + rest) == [c] + Unescape(t, rest)
  {
    hide Inverts, Unambiguous, Name, Unescape, Close, NameChar;
    var u := EscapeChar(n, c) + rest;
    assert u[0..] == u;
    UnescapeStep(t, u, 0);
    if IsIdent(c) {
      assert u[1..] == rest;
    } else {
      CloseName(n, t, c, rest);
      Slices(Name(n, c), rest);
    }
  }

  lemma Slices(name: string, rest: string)
    ensures var u := ['_'] + name + ['_'] + rest; u[1..1 + |name|] == name && u[1 + |name| + 1..] == rest
  {
  }

  /** Unescape inverts the escape on every readable string whose underscores open nothing. */
  lemma {:induction false} UnescapeEscape(n: names, t: table, s: string)
    requires Inverts(t, n) && Unambiguous(t) && AllReadable(n, s) && Quiet(n, t, s)
    ensures Unescape(t, Escape(n, s)) == s
  {
    if s != [] {
      hide Inverts, Unambiguous, Unescape, Opens;
      assert s[0..] == s;
      assert s[0] == '_' ==> !OpensFrom(n, t, s, 0);
      QuietTail(n, t, s);
      UnescapeEscape(n, t, s[1..]);
      UnescapeFront(n, t, s[0], Escape(n, s[1..]));
      assert s == [s[0]] + s[1..];
    } else {
      UnescapeNothing(t, Escape(n, s));
    }
  }

  lemma QuietTail(n: names, t: table, s: string)
    requires s != [] && AllReadable(n, s) && Quiet(n, t, s)
    ensures AllReadable(n, s[1..]) && Quiet(n, t, s[1..])
  {
  }

  // ---- and that it inverts it on no other string ----

  /** The characters of hexadecimal forms and of the underscores around them. */
  predicate HexLike(c: char) { IsHexChar(c) || c == 'x' || c == '_' }

  /**
   * Every name begins with a word that shows it is no hexadecimal form: before any underscore there
   * is a letter other than a to f and x.
   */
  ghost predicate Wordy(t: table) { forall s :: s in t ==> exists j: nat :: WordUpTo(s, j) }

  predicate WordUpTo(s: string, j: nat)
  {
    j < |s| && !HexLike(s[j]) && forall i :: 0 <= i <= j ==> IsIdent(s[i]) && s[i] != '_'
  }

  /** What a misreading can leave over: characters of hexadecimal forms and characters without a name. */
  predicate Leftover(n: names, p: string)
  {
    forall i :: 0 <= i < |p| ==> HexLike(p[i]) || (!IsIdent(p[i]) && p[i] !in n)
  }

  /** The conditions on a table can be met: three of the HTML names do. */
  lemma SmallTable()
    ensures var n, t := map['<' := "lt", '>' := "gt", '&' := "amp"], map["lt" := '<', "gt" := '>', "amp" := '&'];
            Inverts(t, n) && Unambiguous(t) && Wordy(t)
  {
    assert WordUpTo("lt", 0) && WordUpTo("gt", 0) && WordUpTo("amp", 1);
  }

  /** Text without underscores is passed through. */
  lemma {:induction false} UnescapeWord(t: table, w: string, v: string)
    requires forall i :: 0 <= i < |w| ==> w[i] != '_'
    ensures Unescape(t, w + v) == w + Unescape(t, v)
  {
    hide *;
    if w == [] {
      assert w + v == v;
      assert w + Unescape(t, v) == Unescape(t, v);
    } else {
      assert (w + v)[0] == w[0] && (w + v)[1..] == w[1..] + v;
      UnescapeUnfold(t, w + v);
      UnescapeWord(t, w[1..], v);
      assert w == [w[0]] + w[1..];
    }
  }

  lemma EscapeHead(n: names, s: string)
    requires AllReadable(n, s) && Escape(n, s) != []
    ensures s != [] && Writable(n, s[0]) && AllReadable(n, s[1..])
    ensures Escape(n, s) == EscapeChar(n, s[0]) + Escape(n, s[1..])
    ensures if IsIdent(s[0]) then EscapeChar(n, s[0]) == [s[0]] else EscapeChar(n, s[0])[0] == '_'
  {
    hide Name;
  }

  /** An escaped text that begins with a word comes from a string that begins with it. */
  lemma {:induction false} EscapeWord(n: names, s: string, w: string)
    requires AllReadable(n, s) && w <= Escape(n, s)
    requires forall i :: 0 <= i < |w| ==> w[i] != '_'
    ensures w <= s && Escape(n, s) == w + Escape(n, s[|w|..])
  {
    hide Name, Escape;
    if w == [] {
      assert s[0..] == s;
    } else {
      EscapeHead(n, s);
      var r, e := s[1..], Escape(n, s[1..]);
      assert Escape(n, s)[0] == w[0];
      PrefixTail(w, s[0], e);
      EscapeWord(n, r, w[1..]);
      PrefixTail(w, s[0], r);
      assert s == [s[0]] + r && s[|w|..] == r[|w| - 1..];
      assert w + Escape(n, s[|w|..]) == [w[0]] + (w[1..] + Escape(n, s[|w|..]));
    }
  }

  lemma PrefixTail(w: string, c: char, e: string)
    requires w != [] && w[0] == c
    ensures w <= [c] + e <==> w[1..] <= e
  {
    assert w == [c] + w[1..];
    if w <= [c] + e {
      assert ([c] + e)[1..|w|] == w[1..] && ([c] + e)[1..|w|] == e[..|w| - 1];
    }
  }

  ghost predicate Table(n: names, t: table) { Inverts(t, n) && Unambiguous(t) && Wordy(t) }

  /** With something left over in front, a string is never read from its own escape. */
  lemma {:induction false} ShiftedFails(n: names, t: table, p: string, r: string)
    requires Table(n, t) && AllReadable(n, r) && Leftover(n, p) && p != []
    ensures Unescape(t, Escape(n, r)) != p + r
    decreases |r|, 0
  {
    hide Inverts, Unambiguous, Wordy, Unescape, Close, Known, NameChar, Name, HexLike;
    if r == [] {
      UnescapeNothing(t, Escape(n, r));
    } else {
      var d, rest := r[0], r[1..];
      if d == '_' {
        assert p + r == p + ['_'] + rest;
        Underscore(n, p);
        ShiftedUnderscoreFails(n, t, p + ['_'], rest);
      } else {
        UnescapeFront(n, t, d, Escape(n, rest));
        if Unescape(t, Escape(n, r)) == p + r {
          var q := p[1..] + [d];
          assert d == (p + r)[0] == p[0];
          assert (p + r)[1..] == q + rest;
          ShiftedFails(n, t, q, rest);
        }
      }
    }
  }

  lemma Underscore(n: names, p: string)
    requires Leftover(n, p)
    ensures Leftover(n, p + ['_'])
  {
  }

  /** The same with an underscore in front of the escape, unless that is simply read as the first character. */
  lemma {:induction false} ShiftedUnderscoreFails(n: names, t: table, p: string, r: string)
    requires Table(n, t) && AllReadable(n, r) && Leftover(n, p) && p != []
    requires |p| > 1 || p[0] != '_' || Opens(t, ['_'] + Escape(n, r))
    ensures Unescape(t, ['_'] + Escape(n, r)) != p + r
    decreases |r|, 1
  {
    hide Inverts, Unambiguous, Wordy, Unescape, Close, Known, NameChar, Name, HexLike, Escape;
    var u := ['_'] + Escape(n, r);
    assert u[0..] == u && u[1..] == Escape(n, r);
    UnescapeStep(t, u, 0);
    if Unescape(t, u) == p + r {
      assert (p + r)[0] == p[0] && (p + r)[1..] == p[1..] + r;
      var k := Close(t, u, 1);
      if k == |u| {
        ShiftedFails(n, t, p[1..], r);
      } else {
        OpenedName(n, t, p, u[1..k]);
        Around(u, k);
        HexFormFails(n, t, p[1..], u[1..k], r, u[k + 1..]);
      }
    }
  }

  lemma {:induction false} HexFormFails(n: names, t: table, q: string, name: string, r: string, rest: string)
    requires Table(n, t) && AllReadable(n, r) && Leftover(n, q)
    requires |name| == 4 && forall i :: 0 <= i < |name| ==> name[i] != '_' && HexLike(name[i])
    requires Escape(n, r) == name + ['_'] + rest
    ensures Unescape(t, rest) != q + r
    decreases |r|, 0
  {
    hide Table, Unescape, HexLike, Escape, Leftover;
    EscapeWord(n, r, name);
    assert Escape(n, r[4..]) == Escape(n, r)[4..] == ['_'] + rest;
    assert r == name + r[4..] && q + r == q + name + r[4..];
    AfterHexForm(n, t, q, name, r[4..], rest);
  }

  lemma Around(u: string, k: nat)
    requires 0 < k < |u|
    ensures u[1..] == u[1..k] + [u[k]] + u[k + 1..]
  {
  }

  /** A name read as a leftover character is a hexadecimal form. */
  lemma OpenedName(n: names, t: table, p: string, name: string)
    requires Inverts(t, n) && Leftover(n, p) && p != [] && Known(t, name) && NameChar(t, name) == p[0]
    ensures IsHexForm(name) && name !in t
    ensures forall i :: 0 <= i < |name| ==> name[i] != '_' && HexLike(name[i])
  {
  }

  /** After a hexadecimal form that ends at the first underscore of the escape of `r`. */
  lemma {:induction false} AfterHexForm(n: names, t: table, q: string, name: string, r: string, rest: string)
    requires Table(n, t) && AllReadable(n, r) && Leftover(n, q)
    requires |name| == 4 && forall i :: 0 <= i < |name| ==> HexLike(name[i])
    requires Escape(n, r) == ['_'] + rest
    ensures Unescape(t, rest) != q + name + r
    decreases |r|, 0
  {
    hide Inverts, Unambiguous, Wordy, Unescape, Close, Known, NameChar, Name, HexLike, Escape;
    EscapeHead(n, r);
    var d, r5 := r[0], r[1..];
    var x := q + name;
    assert Leftover(n, x);
    assert Escape(n, r)[1..] == rest;
    assert r == [d] + r5 && x + r == x + [d] + r5;
    if IsIdent(d) {
      assert d == '_' && rest == Escape(n, r5);
      Underscore(n, x);
      ShiftedFails(n, t, x + ['_'], r5);
    } else {
      assert rest == Name(n, d) + ['_'] + Escape(n, r5);
      if d in n {
        NamedFails(n, t, x, d, r5);
      } else {
        UnnamedFails(n, t, x, d, r5);
      }
    }
  }

  lemma NamedFails(n: names, t: table, x: string, d: char, r: string)
    requires Table(n, t) && AllReadable(n, r) && Leftover(n, x) && d in n && Readable(n, d) && !IsIdent(d)
    ensures Unescape(t, Name(n, d) + ['_'] + Escape(n, r)) != x + [d] + r
  {
    hide Unescape, Close, Unambiguous, Escape;
    var name := n[d];
    assert name in t;
    var j: nat :| WordUpTo(name, j);
    var w, v := name[..j + 1], name[j + 1..] + ['_'] + Escape(n, r);
    assert Name(n, d) + ['_'] + Escape(n, r) == w + v;
    UnescapeWord(t, w, v);
    var i := if j < |x| then j else |x|;
    assert (w + Unescape(t, v))[i] == name[i];
    assert (x + [d] + r)[i] == if j < |x| then x[j] else d;
  }

  lemma {:induction false} UnnamedFails(n: names, t: table, x: string, d: char, r: string)
    requires Table(n, t) && AllReadable(n, r) && Leftover(n, x) && |x| >= 4
    requires d !in n && Readable(n, d) && !IsIdent(d)
    ensures Unescape(t, Name(n, d) + ['_'] + Escape(n, r)) != x + [d] + r
    decreases |r|, 2
  {
    hide Inverts, Unambiguous, Wordy, Unescape, Close, Known, NameChar, Escape, HexLike;
    var w, v := Name(n, d), ['_'] + Escape(n, r);
    assert w + ['_'] + Escape(n, r) == w + v && |w| == 4;
    UnescapeWord(t, w, v);
    if w + Unescape(t, v) == x + [d] + r {
      var y := x[4..] + [d];
      assert (w + Unescape(t, v))[4..] == Unescape(t, v) && (x + [d] + r)[4..] == y + r;
      assert Leftover(n, y);
      ShiftedUnderscoreFails(n, t, y, r);
    }
  }

  lemma {:induction false} NoisyFails(n: names, t: table, s: string)
    requires Table(n, t) && AllReadable(n, s) && !Quiet(n, t, s)
    ensures Unescape(t, Escape(n, s)) != s
  {
    hide Inverts, Unambiguous, Wordy, Unescape, NameChar, Known;
    var rest := s[1..];
    assert s[0..] == s;
    if s[0] == '_' && OpensFrom(n, t, s, 0) {
      assert Escape(n, s) == ['_'] + Escape(n, rest) && s == ['_'] + rest;
      ShiftedUnderscoreFails(n, t, ['_'], rest);
    } else {
      NoisyTail(n, t, s);
      NoisyFails(n, t, rest);
      UnescapeFront(n, t, s[0], Escape(n, rest));
    }
  }

  lemma NoisyTail(n: names, t: table, s: string)
    requires s != [] && AllReadable(n, s) && !Quiet(n, t, s)
    requires s[0] == '_' ==> !OpensFrom(n, t, s, 0)
    ensures AllReadable(n, s[1..]) && !Quiet(n, t, s[1..])
  {
    hide Opens, Escape, Close, NameChar, Known;
    var r := s[1..];
    var i :| 0 <= i < |s| && s[i] == '_' && OpensFrom(n, t, s, i);
    assert r[i - 1..] == s[i..];
    assert r[i - 1] == '_' && OpensFrom(n, t, r, i - 1);
  }

  /** The escape can be read back exactly when no literal underscore opens a known name. */
  lemma UnescapeExactly(n: names, t: table, s: string)
    requires Table(n, t) && AllReadable(n, s)
    ensures Unescape(t, Escape(n, s)) == s <==> Quiet(n, t, s)
  {
    if Quiet(n, t, s) {
      UnescapeEscape(n, t, s);
    } else {
      NoisyFails(n, t, s);
    }
  }

  /** In particular strings without underscores, escaped or not, come back. */
  lemma UnescapeWithoutUnderscores(n: names, t: table, s: string)
    requires Inverts(t, n) && Unambiguous(t) && AllReadable(n, s)
    requires forall i :: 0 <= i < |s| ==> s[i] != '_'
    ensures Unescape(t, Escape(n, s)) == s
  {
    UnescapeEscape(n, t, s);
  }

  /** A single character comes back exactly when it is readable: the filter drops the names of the others. */
  lemma CharExactly(n: names, t: table, c: char)
    requires Inverts(t, n) && Unambiguous(t) && Writable(n, c)
    requires forall d :: d in n && d != c && c in n ==> n[d] != n[c]
    requires c in n ==> !IsHexForm(n[c])
    ensures Unescape(t, Escape(n, [c])) == [c] <==> Readable(n, c)
  {
    var u := Escape(n, [c]);
    assert [c][1..] == [] && EscapeChar(n, c) + [] == EscapeChar(n, c);
    assert u == EscapeChar(n, c) + Escape(n, []);
    if Readable(n, c) {
      assert c == '_' ==> u == ['_'];
      UnescapeFront(n, t, c, []);
      assert EscapeChar(n, c) + [] == u;
      UnescapeNothing(t, []);
    } else {
      hide Inverts, Unambiguous, Unescape, Close, NameChar;
      var name := n[c];
      assert u == ['_'] + name + ['_'] && u[1..|name| + 1] == name;
      assert !Known(t, name) by { NameDropped(n, t, c); }
      UnescapeStep(t, u, 0);
      assert u[0..] == u;
      var k := Close(t, u, 1);
      if k < |u| {
        assert u[k + 1..] != [];
        UnescapeSomething(t, u[k + 1..]);
      }
    }
  }

  lemma NameDropped(n: names, t: table, c: char)
    requires Inverts(t, n) && c in n && !Punctuation(c)
    requires forall d :: d in n && d != c ==> n[d] != n[c]
    ensures n[c] !in t
  {
  }

  lemma UnescapeSomething(t: table, s: string)
    requires s != []
    ensures Unescape(t, s) != []
  {
  }

  /** The literal string "_lt_" is its own escape, and is read as "<". */
  lemma LiteralMisread(n: names, t: table)
    requires "lt" in t && t["lt"] == '<' && "" !in t
    ensures Escape(n, "_lt_") == "_lt_" && Unescape(t, "_lt_") == "<"
  {
    var s := "_lt_";
    assert s[1..] == "lt_" && s[2..] == "t_" && s[3..] == "_" && s[4..] == "";
    assert "lt_"[1..] == "t_" && "t_"[1..] == "_" && "_"[1..] == "";
    assert Escape(n, "") == "" && Escape(n, "_") == "_" && Escape(n, "t_") == "t_" && Escape(n, "lt_") == "lt_";
    assert s[1..3] == "lt" && s[1..1] == "";
    assert ClosesAt(t, s, 3);
    CloseUnique(t, s, 3);
    UnescapeStep(t, s, 0);
    assert s[0..] == s;
    UnescapeNothing(t, s[4..]);
  }

  // ---- compute_hash ----

  /** djb2 on an unbounded integer. */
  function Djb2(q: seq<byte>): nat
  {
    if q == [] then 5381 else Xor(Djb2(q[..|q| - 1]) * 33, q[|q| - 1])
  }

  /** djb2 starts at 5381; each byte multiplies by 33 and is combined by exclusive or. */
  lemma Djb2Law(q: seq<byte>, b: byte)
    ensures Djb2([]) == 5381 && Djb2(q + [b]) == Xor(Djb2(q) * 33, b)
  {
    hide Xor;
    assert (q + [b])[..|q|] == q;
  }

  /** djb2 in a register of `width` bits. */
  function Djb2Register(q: seq<byte>, width: nat): nat
  {
    var p := Pow(2, width);
    if q == [] then 5381 % p else Xor(Djb2Register(q[..|q| - 1], width) * 33 % p, q[|q| - 1] % p)
  }

  lemma {:induction false} Djb2Truncates(q: seq<byte>, width: nat)
    ensures Djb2(q) % Pow(2, width) == Djb2Register(q, width)
  {
    if q != [] {
      hide Xor;
      var r, p := q[..|q| - 1], Pow(2, width);
      Djb2Truncates(r, width);
      XorTruncates(Djb2(r) * 33, q[|q| - 1], width);
      TimesTruncates(Djb2(r), 33, p);
    }
  }

  lemma TimesTruncates(h: nat, k: nat, p: nat)
    requires p > 0
    ensures h * k % p == h % p * k % p
  {
    var q, r := h / p, h % p;
    var u, v := r * k / p, r * k % p;
    assert h == p * q + r && r * k == p * u + v;
    assert h * k == p * (q * k + u) + v by {
      assert h * k == (p * q) * k + r * k;
      assert (p * q) * k == p * (q * k);
    }
    QuotientUnique(h * k, p, q * k + u, v);
  }

  /** Eight bits a byte, and sixteen when none are asked for. */
  lemma HashWidths(bytesHash: nat)
    ensures HashWidth(0) == 16 && (bytesHash > 0 ==> HashWidth(bytesHash) == 8 * bytesHash)
  {
  }

  function HashWidth(bytesHash: nat): nat { 8 * (if bytesHash == 0 then 2 else bytesHash) }

  /** The hash masked once at the end is the hash of a register of that width, with 0 replaced by 1. */
  method ComputeHash(q: seq<byte>, bytesHash: nat) returns (h: nat)
    ensures var r := Djb2Register(q, HashWidth(bytesHash)); h == if r == 0 then 1 else r
    ensures 1 <= h < Pow(2, HashWidth(bytesHash))
  {
    hide Xor, Pow;
    h := 5381;
    var i := 0;
    while i < |q|
      invariant 0 <= i <= |q| && h == Djb2(q[..i])
    {
      assert q[..i + 1][..i] == q[..i];
      h := Xor(h * 33, q[i]);
      i := i + 1;
    }
    assert q[..i] == q;
    Djb2Truncates(q, HashWidth(bytesHash));
    AtLeastTwo(HashWidth(bytesHash));
    h := h % Pow(2, HashWidth(bytesHash));
    if h == 0 {
      h := 1;
    }
  }

  lemma AtLeastTwo(k: nat)
    requires k > 0
    ensures Pow(2, k) >= 2
  {
  }
}
