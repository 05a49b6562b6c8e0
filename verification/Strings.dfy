/** ASCII string helpers (pki/string_util.cc) and splitting at a separator. */
module Strings {
  import opened Bytes

  function ToLower(c: char): char {
    if 'A' <= c <= 'Z' then c - 'A' + 'a' else c
  }

  function Lower(s: string): (r: string)
    ensures |r| == |s|
    ensures forall i :: 0 <= i < |s| ==> r[i] == ToLower(s[i])
  {
    seq(|s|, i requires 0 <= i < |s| => ToLower(s[i]))
  }

  predicate IsAscii(s: string) {
    forall i :: 0 <= i < |s| ==> s[i] <= 127 as char
  }

  predicate IsEqualNoCase(s: string, t: string) {
    |s| == |t| && forall i :: 0 <= i < |s| ==> ToLower(s[i]) == ToLower(t[i])
  }

  predicate EndsWithNoCase(s: string, suffix: string) {
    |suffix| <= |s| && IsEqualNoCase(suffix, s[|s| - |suffix|..])
  }

  /** The two cases of one ASCII letter, by code point. */
  predicate SameLetter(c: char, d: char) {
    || (0x41 <= c as int <= 0x5a && d as int == c as int + 0x20)
    || (0x61 <= c as int <= 0x7a && d as int == c as int - 0x20)
  }

  /** Position by position equal, but for the case of ASCII letters. */
  predicate SameButCase(s: string, t: string) {
    |s| == |t| && forall i :: 0 <= i < |s| ==> s[i] == t[i] || SameLetter(s[i], t[i])
  }

  lemma SameEitherWay(s: string, t: string)
    ensures SameButCase(s, t) <==> SameButCase(t, s)
  {
  }

  /** Comparing without case overlooks the case of ASCII letters and nothing else. */
  lemma NoCaseExactly(s: string, t: string)
    ensures IsEqualNoCase(s, t) <==> SameButCase(s, t)
  {
    if |s| == |t| {
      forall i | 0 <= i < |s| ensures ToLower(s[i]) == ToLower(t[i]) <==> s[i] == t[i] || SameLetter(s[i], t[i]) {
        FoldExactly(s[i], t[i]);
      }
    }
    hide ToLower, SameLetter;
  }

  lemma FoldExactly(c: char, d: char)
    ensures ToLower(c) == ToLower(d) <==> c == d || SameLetter(c, d)
  {
  }

  /** Ignoring case is comparing lower-cased strings. */
  lemma EqualNoCase(s: string, t: string)
    ensures IsEqualNoCase(s, t) <==> Lower(s) == Lower(t)
  {
    if Lower(s) == Lower(t) {
      forall i | 0 <= i < |s| ensures ToLower(s[i]) == ToLower(t[i]) {
        assert Lower(s)[i] == Lower(t)[i];
      }
    }
  }

  /** The first position of c, or the length. */
  function Find(s: string, c: char): (p: nat)
    ensures p <= |s|
    ensures forall i :: 0 <= i < p ==> s[i] != c
    ensures p < |s| ==> s[p] == c
  {
    if s == "" || s[0] == c then 0 else 1 + Find(s[1..], c)
  }

  /** The pieces between the separators; a string without separators is one piece. */
  function Split(s: string, c: char): (r: seq<string>)
    ensures |r| >= 1
    decreases |s|
  {
    var p := Find(s, c);
    if p == |s| then [s] else [s[..p]] + Split(s[p + 1..], c)
  }

  lemma SplitUnfold(s: string, c: char)
    ensures var p := Find(s, c);
            Split(s, c) == if p == |s| then [s] else [s[..p]] + Split(s[p + 1..], c)
  {
    hide Find;
  }

  function Join(parts: seq<string>, c: char): string
    requires |parts| >= 1
  {
    if |parts| == 1 then parts[0] else parts[0] + [c] + Join(parts[1..], c)
  }

  lemma FindAt(a: string, c: char, b: string)
    requires c !in a
    ensures Find(a + [c] + b, c) == |a| && Find(a, c) == |a|
  {
    var s := a + [c] + b;
    assert s[|a|] == c;
    assert forall i :: 0 <= i < |a| ==> s[i] == a[i] && a[i] in a;
  }

  lemma {:induction false} SplitAt(a: string, c: char, b: string)
    ensures Split(a + [c] + b, c) == Split(a, c) + Split(b, c)
    decreases |a|
  {
    hide Find, Split;
    var p := Find(a, c);
    SplitUnfold(a, c);
    if p == |a| {
      SplitFirst(a, c, b);
    } else {
      var h, t := a[..p], a[p + 1..];
      CutAt(a, p);
      assert a + [c] + b == h + [c] + (t + [c] + b);
      SplitFirst(h, c, t + [c] + b);
      SplitAt(t, c, b);
      assert [h] + (Split(t, c) + Split(b, c)) == ([h] + Split(t, c)) + Split(b, c);
    }
  }

  lemma SplitFirst(a: string, c: char, b: string)
    requires c !in a
    ensures Split(a + [c] + b, c) == [a] + Split(b, c)
  {
    hide Find, Split;
    var s := a + [c] + b;
    FindAt(a, c, b);
    SplitUnfold(s, c);
    assert s[|a| + 1..] == b && s[..|a|] == a;
  }

  lemma SplitFree(a: string, c: char)
    requires c !in a
    ensures Split(a, c) == [a]
  {
    hide Split;
    SplitUnfold(a, c);
  }

  lemma CutAt(s: string, p: nat)
    requires p < |s|
    ensures s == s[..p] + [s[p]] + s[p + 1..]
  {
  }

  lemma JoinCons(h: string, rest: seq<string>, c: char)
    requires |rest| >= 1
    ensures Join([h] + rest, c) == h + [c] + Join(rest, c)
  {
    assert ([h] + rest)[1..] == rest;
  }

  /** Joining the pieces gives the string back. */
  lemma {:induction false} JoinSplit(s: string, c: char)
    ensures Join(Split(s, c), c) == s
    decreases |s|
  {
    var p := Find(s, c);
    if p < |s| {
      hide Find, Join, Split;
      var rest := s[p + 1..];
      JoinSplit(rest, c);
      SplitUnfold(s, c);
      JoinCons(s[..p], Split(rest, c), c);
      CutAt(s, p);
    } else {
      SplitUnfold(s, c);
    }
  }

  lemma SplitInjective(s: string, t: string, c: char)
    requires Split(s, c) == Split(t, c)
    ensures s == t
  {
    JoinSplit(s, c);
    JoinSplit(t, c);
  }

  lemma {:induction false} PiecesFree(s: string, c: char, i: nat)
    requires i < |Split(s, c)|
    ensures c !in Split(s, c)[i]
    decreases |s|
  {
    var p := Find(s, c);
    if p < |s| && i > 0 { PiecesFree(s[p + 1..], c, i - 1); }
  }

  lemma {:induction false} SplitJoin(parts: seq<string>, c: char)
    requires |parts| >= 1 && forall i :: 0 <= i < |parts| ==> c !in parts[i]
    ensures Split(Join(parts, c), c) == parts
  {
    hide Split;
    if |parts| == 1 {
      SplitFree(parts[0], c);
    } else {
      hide Join;
      var h, rest := parts[0], parts[1..];
      assert parts == [h] + rest;
      SplitJoin(rest, c);
      JoinCons(h, rest, c);
      SplitFirst(h, c, Join(rest, c));
    }
  }

  /** The pieces are the only way to write the string as parts without the separator, with the separator between them. */
  lemma SplitExactly(s: string, c: char, parts: seq<string>)
    ensures parts == Split(s, c) <==>
            |parts| >= 1 && (forall i :: 0 <= i < |parts| ==> c !in parts[i]) && Join(parts, c) == s
  {
    JoinSplit(s, c);
    forall i | 0 <= i < |Split(s, c)| ensures c !in Split(s, c)[i] { PiecesFree(s, c, i); }
    if |parts| >= 1 && (forall i :: 0 <= i < |parts| ==> c !in parts[i]) { SplitJoin(parts, c); }
    hide Split, Join;
  }

  lemma {:induction false} JoinConcat(p: seq<string>, q: seq<string>, c: char)
    requires |p| >= 1 && |q| >= 1
    ensures Join(p + q, c) == Join(p, c) + [c] + Join(q, c)
  {
    if |p| == 1 {
      assert (p + q)[1..] == q;
    } else {
      assert (p + q)[1..] == p[1..] + q;
      JoinConcat(p[1..], q, c);
      var rest := Join(p[1..], c);
      assert p[0] + [c] + (rest + [c] + Join(q, c)) == (p[0] + [c] + rest) + [c] + Join(q, c);
    }
  }

  /** SplitString: the pieces, but none at all for the empty string. */
  method SplitString(text: string, c: char) returns (out: seq<string>)
    ensures out == if text == "" then [] else Split(text, c)
  {
    hide Split;
    out := [];
    if text == "" { return; }
    var str := text;
    while true
      invariant out + Split(str, c) == Split(text, c)
      decreases |str|
    {
      var i := Find(str, c);
      SplitUnfold(str, c);
      ghost var before := out;
      out := out + [str[..i]];
      if i == |str| {
        assert str[..i] == str;
        return;
      }
      assert out + Split(str[i + 1..], c) == before + ([str[..i]] + Split(str[i + 1..], c));
      str := str[i + 1..];
    }
  }

  function HexDigit(d: nat): char
    requires d < 16
  {
    if d < 10 then '0' + d as char else 'A' + (d - 10) as char
  }

  /** HexEncode: two upper-case digits an octet. */
  function HexEncode(v: Input): string {
    if v == [] then "" else [HexDigit(v[0] / 16), HexDigit(v[0] % 16)] + HexEncode(v[1..])
  }

  /** An ASCII digit of upper-case hexadecimal. */
  predicate UpperHex(c: char, d: nat) {
    (d < 10 && c as int == 0x30 + d) || (10 <= d < 16 && c as int == 0x41 + d - 10)
  }

  /** The i-th pair of characters is the octet in upper-case hexadecimal, the high half first. */
  predicate HexPairAt(s: string, i: nat, c: byte) {
    2 * i + 1 < |s| && UpperHex(s[2 * i], c / 16) && UpperHex(s[2 * i + 1], c % 16)
  }

  /** HexEncode writes each octet as two upper-case digits. */
  lemma {:induction false} HexExactly(v: Input, s: string)
    ensures s == HexEncode(v) <==> |s| == 2 * |v| && forall i :: 0 <= i < |v| ==> HexPairAt(s, i, v[i])
  {
    hide UpperHex, HexDigit;
    if v != [] && |s| >= 2 {
      var tail := s[2..];
      HexExactly(v[1..], tail);
      FirstPair(v[0], s);
      assert s == [s[0], s[1]] + tail;
      assert s == HexEncode(v) <==> s[0] == HexDigit(v[0] / 16) && s[1] == HexDigit(v[0] % 16) && tail == HexEncode(v[1..]);
      forall i: nat | i + 1 < |v| ensures HexPairAt(tail, i, v[1..][i]) <==> HexPairAt(s, i + 1, v[i + 1]) {
        NextPair(s, i, v[i + 1]);
      }
      hide HexPairAt, HexEncode;
      assert forall i :: 1 <= i < |v| ==> (HexPairAt(s, i, v[i]) <==> HexPairAt(tail, i - 1, v[1..][i - 1]));
    } else {
      hide HexPairAt;
    }
  }

  lemma FirstPair(c: byte, s: string)
    requires |s| >= 2
    ensures HexPairAt(s, 0, c) <==> s[0] == HexDigit(c / 16) && s[1] == HexDigit(c % 16)
  {
    DigitExactly(c / 16);
    DigitExactly(c % 16);
    hide UpperHex, HexDigit;
  }

  lemma NextPair(s: string, i: nat, c: byte)
    requires |s| >= 2
    ensures HexPairAt(s[2..], i, c) <==> HexPairAt(s, i + 1, c)
  {
    hide UpperHex;
  }

  lemma DigitExactly(d: nat)
    requires d < 16
    ensures forall c :: UpperHex(c, d) <==> c == HexDigit(d)
  {
  }
}
