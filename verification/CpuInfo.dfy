/** The /proc/cpuinfo tokenizer (crypto/cpu_arm_linux.h), whose output pieces may be its input pieces. */
module CpuInfo {
  import opened Bits
  import opened Strings
  import opened Wrappers

  // ----- what the tokenizer computes

  /** The entries of a delimited string: its pieces, without an empty one at the very end. */
  function Tokens(s: string, sep: char): seq<string>
    decreases |s|
  {
    if s == "" then []
    else
      var p := Find(s, sep);
      if p == |s| then [s] else [s[..p]] + Tokens(s[p + 1..], sep)
  }

  predicate IsBlank(c: char) {
    c == ' ' || c == '\t'
  }

  predicate AllBlank(s: string) {
    forall i :: 0 <= i < |s| ==> IsBlank(s[i])
  }

  function TrimLeft(s: string): string {
    if s != "" && IsBlank(s[0]) then TrimLeft(s[1..]) else s
  }

  function TrimRight(s: string): string {
    if s != "" && IsBlank(s[|s| - 1]) then TrimRight(s[..|s| - 1]) else s
  }

  function Trimmed(s: string): string {
    TrimRight(TrimLeft(s))
  }

  /** The value of a line "key: value" with that key, both trimmed. */
  function LineValue(line: string, field: string): Option<string> {
    var p := Find(line, ':');
    if p == |line| || Trimmed(line[..p]) != field then None else Some(Trimmed(line[p + 1..]))
  }

  /** The value in the first line that has the field. */
  function FieldIn(lines: seq<string>, field: string): Option<string> {
    if lines == [] then None
    else if LineValue(lines[0], field).Some? then LineValue(lines[0], field)
    else FieldIn(lines[1..], field)
  }

  // ----- the code

  /** STRING_PIECE: a stretch of a buffer that is never written. */
  class StringPiece {
    var buffer: string
    var data: nat
    var len: nat

    constructor (buffer: string, data: nat, len: nat)
      ensures this.buffer == buffer && this.data == data && this.len == len
    {
      this.buffer, this.data, this.len := buffer, data, len;
    }

    predicate Valid()
      reads this
    {
      data + len <= |buffer|
    }

    function Text(): string
      reads this
      requires Valid()
    {
      buffer[data..data + len]
    }

    /** Assignment of the struct. */
    method Set(other: StringPiece)
      requires other.Valid()
      modifies this
      ensures Valid() && Text() == old(other.Text())
    {
      buffer, data, len := other.buffer, other.data, other.len;
    }

    predicate Equals(b: string)
      reads this
      requires Valid()
    {
      len == |b| && buffer[data..data + len] == b
    }

    method Trim()
      requires Valid()
      modifies this
      ensures Valid() && Text() == Trimmed(old(Text()))
    {
      hide TrimLeft, TrimRight;
      TrimFront();
      TrimBack();
    }

    method TrimFront()
      requires Valid()
      modifies this
      ensures Valid() && Text() == TrimLeft(old(Text()))
    {
      hide TrimLeft;
      ghost var b, end := buffer, data + len;
      ghost var goal := TrimLeft(b[data..end]);
      while len != 0 && IsBlank(buffer[data])
        invariant buffer == b && data + len == end <= |b| && TrimLeft(b[data..end]) == goal
        decreases len
      {
        FirstOf(b, data, end);
        data := data + 1;
        len := len - 1;
      }
      FirstOf(b, data, end);
    }

    method TrimBack()
      requires Valid()
      modifies this
      ensures Valid() && Text() == TrimRight(old(Text()))
    {
      hide TrimRight;
      ghost var b, d := buffer, data;
      ghost var goal := TrimRight(b[d..d + len]);
      while len != 0 && IsBlank(buffer[data + len - 1])
        invariant buffer == b && data == d && d + len <= |b| && TrimRight(b[d..d + len]) == goal
        decreases len
      {
        LastOf(b, d, d + len);
        len := len - 1;
      }
      LastOf(b, d, d + len);
    }
  }

  lemma FirstOf(b: string, d: nat, e: nat)
    requires d <= e <= |b|
    ensures TrimLeft(b[d..e]) == if d < e && IsBlank(b[d]) then TrimLeft(b[d + 1..e]) else b[d..e]
  {
    if d < e { assert b[d..e][1..] == b[d + 1..e]; }
  }

  lemma LastOf(b: string, d: nat, e: nat)
    requires d <= e <= |b|
    ensures TrimRight(b[d..e]) == if d < e && IsBlank(b[e - 1]) then TrimRight(b[d..e - 1]) else b[d..e]
  {
    if d < e { assert b[d..e][..e - 1 - d] == b[d..e - 1]; }
  }

  /** memchr, as an offset into the text. */
  method FindOffset(piece: StringPiece, sep: char) returns (p: Option<nat>)
    requires piece.Valid()
    ensures p == if Find(piece.Text(), sep) == piece.len then None else Some(Find(piece.Text(), sep))
  {
    var i := 0;
    while i < piece.len
      invariant i <= piece.len
      invariant forall k :: 0 <= k < i ==> piece.Text()[k] != sep
    {
      if piece.buffer[piece.data + i] == sep {
        assert piece.Text()[i] == sep;
        return Some(i);
      }
      i := i + 1;
    }
    return None;
  }

  lemma SliceHalves(b: string, d: nat, n: nat, p: nat)
    requires p < n && d + n <= |b|
    ensures b[d..d + n][..p] == b[d..d + p] && b[d..d + n][p + 1..] == b[d + p + 1..d + n]
  {
  }

  /** STRING_PIECE_split; either output may be the input. */
  method Split(outLeft: StringPiece, outRight: StringPiece, input: StringPiece, sep: char) returns (found: bool)
    requires input.Valid() && outLeft != outRight
    modifies outLeft, outRight
    ensures found <==> Find(old(input.Text()), sep) < |old(input.Text())|
    ensures found ==> outLeft.Valid() && outRight.Valid()
    ensures found ==> var p := Find(old(input.Text()), sep);
                      outLeft.Text() == old(input.Text())[..p] && outRight.Text() == old(input.Text())[p + 1..]
    ensures !found ==> unchanged(outLeft) && unchanged(outRight)
  {
    hide Find;
    ghost var b, d, n := input.buffer, input.data, input.len;
    var p := FindOffset(input, sep);
    if p.None? { return false; }
    var inCopy := new StringPiece(input.buffer, input.data, input.len);
    outLeft.buffer := inCopy.buffer;
    outLeft.data := inCopy.data;
    outLeft.len := p.value;
    outRight.buffer := inCopy.buffer;
    outRight.data := inCopy.data + outLeft.len + 1;
    outRight.len := inCopy.len - outLeft.len - 1;
    assert outLeft.buffer == b && outLeft.data == d && outLeft.len == p.value;
    assert outRight.buffer == b && outRight.data == d + p.value + 1 && outRight.len == n - p.value - 1;
    SliceHalves(b, d, n, p.value);
    return true;
  }

  /** STRING_PIECE_get_delimited: takes the first entry off s. */
  method GetDelimited(s: StringPiece, out: StringPiece, sep: char) returns (more: bool)
    requires s.Valid() && s != out
    modifies s, out
    ensures s.Valid()
    ensures more <==> old(s.Text()) != ""
    ensures more ==> out.Valid() && Tokens(old(s.Text()), sep) == [out.Text()] + Tokens(s.Text(), sep)
    ensures more ==> s.len < old(s.len)
    ensures !more ==> unchanged(s) && unchanged(out)
  {
    if s.len == 0 {
      return false;
    }
    TokensUnfold(s.Text(), sep);
    assert Tokens("", sep) == [];
    hide Find, Tokens;
    var found := Split(out, s, s, sep);
    if !found {
      out.Set(s);
      s.data := s.data + s.len;
      s.len := 0;
    }
    return true;
  }

  /** The body of the loop over the lines: leaves the trimmed value in value when the line has the field. */
  method MatchLine(line: StringPiece, key: StringPiece, value: StringPiece, field: string) returns (matches: bool)
    requires line.Valid() && key != value && line != key && line != value
    modifies key, value
    ensures matches <==> LineValue(line.Text(), field).Some?
    ensures matches ==> value.Valid() && value.Text() == LineValue(line.Text(), field).value
  {
    hide Trimmed, Find;
    var split := Split(key, value, line, ':');
    if !split { return false; }
    key.Trim();
    if !key.Equals(field) { return false; }
    value.Trim();
    return true;
  }

  /** extract_cpuinfo_field. */
  method ExtractField(out: StringPiece, input: StringPiece, field: string) returns (found: bool)
    requires input.Valid()
    modifies out
    ensures found <==> FieldIn(Tokens(old(input.Text()), '\n'), field).Some?
    ensures found ==> out.Valid() && out.Text() == FieldIn(Tokens(old(input.Text()), '\n'), field).value
    ensures !found ==> unchanged(out)
  {
    assert Tokens("", '\n') == [] && FieldIn([], field).None?;
    hide Tokens, LineValue, FieldIn;
    ghost var lines := Tokens(input.Text(), '\n');
    var remaining := new StringPiece(input.buffer, input.data, input.len);
    var line := new StringPiece("", 0, 0);
    var key := new StringPiece("", 0, 0);
    var value := new StringPiece("", 0, 0);
    var more := GetDelimited(remaining, line, '\n');
    ghost var pending := Tokens(remaining.Text(), '\n');
    while more
      invariant remaining.Valid() && unchanged(out)
      invariant more ==> line.Valid() && pending == Tokens(remaining.Text(), '\n')
      invariant more ==> FieldIn(lines, field) == FieldIn([line.Text()] + pending, field)
      invariant !more ==> FieldIn(lines, field).None?
      decreases more, remaining.len
    {
      FieldInCons(line.Text(), pending, field);
      var matches := MatchLine(line, key, value, field);
      if matches {
        out.Set(value);
        return true;
      }
      more := GetDelimited(remaining, line, '\n');
      if more { pending := Tokens(remaining.Text(), '\n'); }
    }
    return false;
  }

  lemma FieldInCons(line: string, rest: seq<string>, field: string)
    ensures FieldIn([line] + rest, field) == if LineValue(line, field).Some? then LineValue(line, field) else FieldIn(rest, field)
  {
    hide LineValue;
    assert ([line] + rest)[1..] == rest;
  }

  /** has_list_item. */
  method HasListItem(list: StringPiece, item: string) returns (found: bool)
    requires list.Valid()
    ensures found <==> item in Tokens(list.Text(), ' ')
  {
    hide Find;
    var remaining := new StringPiece(list.buffer, list.data, list.len);
    var feature := new StringPiece("", 0, 0);
    var more := GetDelimited(remaining, feature, ' ');
    while more
      invariant remaining.Valid()
      invariant more ==> feature.Valid()
      invariant item in Tokens(list.Text(), ' ') <==>
                more && (feature.Text() == item || item in Tokens(remaining.Text(), ' '))
      decreases more, remaining.len
    {
      if feature.Equals(item) { return true; }
      more := GetDelimited(remaining, feature, ' ');
    }
    return false;
  }

  const HWCAP2_AES := 1
  const HWCAP2_PMULL := 2
  const HWCAP2_SHA1 := 4
  const HWCAP2_SHA2 := 8

  predicate HasFeature(cpuinfo: string, feature: string) {
    var list := FieldIn(Tokens(cpuinfo, '\n'), "Features");
    list.Some? && feature in Tokens(list.value, ' ')
  }

  /** crypto_get_arm_hwcap2_from_cpuinfo: one bit for each of four features in the list. */
  method HwCap2(cpuinfo: StringPiece) returns (ret: nat)
    requires cpuinfo.Valid()
    ensures ret < 16
    ensures Bit(ret, 0) <==> HasFeature(cpuinfo.Text(), "aes")
    ensures Bit(ret, 1) <==> HasFeature(cpuinfo.Text(), "pmull")
    ensures Bit(ret, 2) <==> HasFeature(cpuinfo.Text(), "sha1")
    ensures Bit(ret, 3) <==> HasFeature(cpuinfo.Text(), "sha2")
  {
    hide Tokens, FieldIn;
    var features := new StringPiece("", 0, 0);
    var found := ExtractField(features, cpuinfo, "Features");
    if !found {
      BitZero(0); BitZero(1); BitZero(2); BitZero(3);
      return 0;
    }
    ret := 0;
    var aes := HasListItem(features, "aes");
    if aes { ret := Or(ret, HWCAP2_AES); }
    var pmull := HasListItem(features, "pmull");
    if pmull { ret := Or(ret, HWCAP2_PMULL); }
    var sha1 := HasListItem(features, "sha1");
    if sha1 { ret := Or(ret, HWCAP2_SHA1); }
    var sha2 := HasListItem(features, "sha2");
    if sha2 { ret := Or(ret, HWCAP2_SHA2); }
    Flags(aes, pmull, sha1, sha2);
  }

  /** The four flags are four different bits. */
  lemma Flags(aes: bool, pmull: bool, sha1: bool, sha2: bool)
    ensures var r1 := if aes then Or(0, HWCAP2_AES) else 0;
            var r2 := if pmull then Or(r1, HWCAP2_PMULL) else r1;
            var r3 := if sha1 then Or(r2, HWCAP2_SHA1) else r2;
            var r := if sha2 then Or(r3, HWCAP2_SHA2) else r3;
            r < 16 && Bit(r, 0) == aes && Bit(r, 1) == pmull && Bit(r, 2) == sha1 && Bit(r, 3) == sha2
  {
    var r1 := if aes then Or(0, HWCAP2_AES) else 0;
    var r2 := if pmull then Or(r1, HWCAP2_PMULL) else r1;
    var r3 := if sha1 then Or(r2, HWCAP2_SHA1) else r2;
    FlagBits();
    OrAtMostSum(0, HWCAP2_AES);
    OrAtMostSum(r1, HWCAP2_PMULL);
    OrAtMostSum(r2, HWCAP2_SHA1);
    OrAtMostSum(r3, HWCAP2_SHA2);
    hide Bit, Or;
    forall i: nat
      ensures Bit(Or(0, HWCAP2_AES), i) == (Bit(0, i) || Bit(HWCAP2_AES, i))
      ensures Bit(Or(r1, HWCAP2_PMULL), i) == (Bit(r1, i) || Bit(HWCAP2_PMULL, i))
      ensures Bit(Or(r2, HWCAP2_SHA1), i) == (Bit(r2, i) || Bit(HWCAP2_SHA1, i))
      ensures Bit(Or(r3, HWCAP2_SHA2), i) == (Bit(r3, i) || Bit(HWCAP2_SHA2, i))
    {
      OrBit(0, HWCAP2_AES, i);
      OrBit(r1, HWCAP2_PMULL, i);
      OrBit(r2, HWCAP2_SHA1, i);
      OrBit(r3, HWCAP2_SHA2, i);
    }
  }

  lemma FlagBits()
    ensures !Bit(0, 0) && !Bit(0, 1) && !Bit(0, 2) && !Bit(0, 3)
    ensures Bit(HWCAP2_AES, 0) && !Bit(HWCAP2_AES, 1) && !Bit(HWCAP2_AES, 2) && !Bit(HWCAP2_AES, 3)
    ensures !Bit(HWCAP2_PMULL, 0) && Bit(HWCAP2_PMULL, 1) && !Bit(HWCAP2_PMULL, 2) && !Bit(HWCAP2_PMULL, 3)
    ensures !Bit(HWCAP2_SHA1, 0) && !Bit(HWCAP2_SHA1, 1) && Bit(HWCAP2_SHA1, 2) && !Bit(HWCAP2_SHA1, 3)
    ensures !Bit(HWCAP2_SHA2, 0) && !Bit(HWCAP2_SHA2, 1) && !Bit(HWCAP2_SHA2, 2) && Bit(HWCAP2_SHA2, 3)
  {
    BitZero(0); BitZero(1); BitZero(2); BitZero(3);
    assert !Bit(1, 1) && !Bit(1, 2) && !Bit(1, 3);
    assert Bit(2, 1) && !Bit(2, 2) && !Bit(2, 3);
    assert !Bit(4, 1) && Bit(4, 2) && !Bit(4, 3);
  }

  lemma {:induction false} OrAtMostSum(x: nat, y: nat)
    ensures Or(x, y) <= x + y
  {
    if x > 0 && y > 0 { OrAtMostSum(x / 2, y / 2); }
  }

  // ----- what tokens mean

  function WithoutLast(s: string, sep: char): string {
    if s != "" && s[|s| - 1] == sep then s[..|s| - 1] else s
  }

  lemma WithoutLastOf(head: string, sep: char, rest: string)
    requires rest != ""
    ensures WithoutLast(head + [sep] + rest, sep) == head + [sep] + WithoutLast(rest, sep)
  {
    var s := head + [sep] + rest;
    assert s[|s| - 1] == rest[|rest| - 1];
    assert s[..|s| - 1] == head + [sep] + rest[..|rest| - 1];
  }

  lemma TokensUnfold(s: string, sep: char)
    requires s != ""
    ensures var p := Find(s, sep); Tokens(s, sep) == if p == |s| then [s] else [s[..p]] + Tokens(s[p + 1..], sep)
  {
    hide Find;
  }

  /** Joining the tokens gives the text back, less one separator at the very end. */
  lemma {:induction false} TokensRejoin(s: string, sep: char)
    requires s != ""
    ensures Tokens(s, sep) != [] && Join(Tokens(s, sep), sep) == WithoutLast(s, sep)
    decreases |s|
  {
    TokensUnfold(s, sep);
    assert Tokens("", sep) == [];
    hide Find, Tokens;
    var p := Find(s, sep);
    if p < |s| - 1 {
      var rest := s[p + 1..];
      TokensRejoin(rest, sep);
      JoinCons(s[..p], Tokens(rest, sep), sep);
      WithoutLastOf(s[..p], sep, rest);
      CutAt(s, p);
    } else if p == |s| - 1 {
      assert s[p + 1..] == "";
      assert [s[..p]] + [] == [s[..p]];
    }
  }

  lemma {:induction false} TokensFree(s: string, sep: char, i: nat)
    requires i < |Tokens(s, sep)|
    ensures sep !in Tokens(s, sep)[i]
    decreases |s|
  {
    var p := Find(s, sep);
    if i > 0 { TokensFree(s[p + 1..], sep, i - 1); }
  }

  predicate StartsEntry(s: string, sep: char, i: nat) {
    i == 0 || (i <= |s| && s[i - 1] == sep)
  }

  predicate EndsEntry(s: string, sep: char, i: nat) {
    i == |s| || (i < |s| && s[i] == sep)
  }

  /** The item stands at position i, between separators or ends. */
  predicate StandsAt(s: string, item: string, sep: char, i: nat) {
    && i <= |s| && item <= s[i..]
    && StartsEntry(s, sep, i) && EndsEntry(s, sep, i + |item|)
  }

  /** The item stands somewhere between separators or ends. */
  ghost predicate Stands(s: string, item: string, sep: char) {
    exists i: nat :: StandsAt(s, item, sep, i)
  }

  lemma StandsFirst(s: string, item: string, sep: char)
    requires item != "" && sep !in item
    ensures StandsAt(s, item, sep, 0) <==> s[..Find(s, sep)] == item
  {
    var p := Find(s, sep);
    if StandsAt(s, item, sep, 0) {
      assert forall k :: 0 <= k < |item| ==> s[k] == item[k] && item[k] in item;
    }
  }

  lemma StandsLater(s: string, item: string, sep: char, i: nat)
    requires item != "" && sep !in item && Find(s, sep) < |s|
    ensures i > 0 && StandsAt(s, item, sep, i) <==>
            i > Find(s, sep) && StandsAt(s[Find(s, sep) + 1..], item, sep, i - Find(s, sep) - 1)
  {
    hide Find;
    var p := Find(s, sep);
    if i > p {
      BehindSeparator(s, item, sep, p, i);
    } else if i > 0 {
      assert s[i - 1] != sep;
    }
  }

  lemma DropTwice(s: string, p: nat, i: nat)
    requires p < i <= |s|
    ensures s[p + 1..][i - p - 1..] == s[i..]
  {
  }

  lemma BehindSeparator(s: string, item: string, sep: char, p: nat, i: nat)
    requires p < i && p < |s| && s[p] == sep
    ensures StandsAt(s, item, sep, i) <==> StandsAt(s[p + 1..], item, sep, i - p - 1)
  {
    EntryBehind(s, sep, p, i);
    EntryBehind(s, sep, p, i + |item|);
    if i <= |s| { DropTwice(s, p, i); }
    hide StartsEntry, EndsEntry;
  }

  lemma EntryBehind(s: string, sep: char, p: nat, i: nat)
    requires p < i && p < |s| && s[p] == sep
    ensures StartsEntry(s, sep, i) <==> StartsEntry(s[p + 1..], sep, i - p - 1)
    ensures EndsEntry(s, sep, i) <==> EndsEntry(s[p + 1..], sep, i - p - 1)
  {
  }

  /** An item stands at the front, or behind the first separator. */
  lemma StandsSplit(s: string, item: string, sep: char)
    requires item != "" && sep !in item && Find(s, sep) < |s|
    ensures Stands(s, item, sep) <==> StandsAt(s, item, sep, 0) || Stands(s[Find(s, sep) + 1..], item, sep)
  {
    hide StandsAt, Find;
    var p := Find(s, sep);
    var rest := s[p + 1..];
    if i: nat :| i > 0 && StandsAt(s, item, sep, i) {
      StandsLater(s, item, sep, i);
      assert StandsAt(rest, item, sep, i - p - 1);
    }
    if j: nat :| StandsAt(rest, item, sep, j) {
      StandsLater(s, item, sep, j + p + 1);
      assert StandsAt(s, item, sep, j + p + 1);
    }
  }

  /** An item without separators is a token exactly when it stands somewhere between separators or ends. */
  lemma {:induction false} TokenStands(s: string, item: string, sep: char)
    requires item != "" && sep !in item
    ensures item in Tokens(s, sep) <==> Stands(s, item, sep)
    decreases |s|
  {
    if s != "" {
      hide Tokens, Find, Stands, StandsAt;
      TokensUnfold(s, sep);
      StandsFirst(s, item, sep);
      var p := Find(s, sep);
      if p == |s| {
        assert s[..p] == s;
        StandsWhole(s, item, sep);
      } else {
        TokenStands(s[p + 1..], item, sep);
        StandsSplit(s, item, sep);
      }
    }
  }

  lemma StandsWhole(s: string, item: string, sep: char)
    requires Find(s, sep) == |s|
    ensures Stands(s, item, sep) <==> StandsAt(s, item, sep, 0)
  {
    hide Find;
    forall i: nat | StandsAt(s, item, sep, i) ensures i == 0 {}
  }

  /** Spaces and tabs, by code point. */
  predicate SpacesAndTabs(s: string) {
    forall i :: 0 <= i < |s| ==> s[i] as int in {0x20, 0x09}
  }

  predicate NoOuterBlanks(t: string) {
    t != "" ==> t[0] as int !in {0x20, 0x09} && t[|t| - 1] as int !in {0x20, 0x09}
  }

  /** t is s with spaces and tabs taken off both ends. */
  ghost predicate TrimOf(s: string, t: string) {
    NoOuterBlanks(t) && exists l, r :: SpacesAndTabs(l) && SpacesAndTabs(r) && s == l + t + r
  }

  lemma BlankIs(c: char)
    ensures IsBlank(c) <==> c as int in {0x20, 0x09}
  {
  }

  /** The same by the code's own test. */
  ghost predicate CutTo(s: string, t: string) {
    (t != "" ==> !IsBlank(t[0]) && !IsBlank(t[|t| - 1])) && exists l, r :: AllBlank(l) && AllBlank(r) && s == l + t + r
  }

  lemma CutIsTrim(s: string, t: string)
    ensures CutTo(s, t) <==> TrimOf(s, t)
  {
    forall c ensures IsBlank(c) <==> c as int in {0x20, 0x09} { BlankIs(c); }
    forall l ensures AllBlank(l) <==> SpacesAndTabs(l) {}
    hide IsBlank, AllBlank, SpacesAndTabs;
  }

  lemma {:induction false} TrimLeftOf(l: string, t: string)
    requires AllBlank(l) && (t != "" ==> !IsBlank(t[0]))
    ensures TrimLeft(l + t) == t
  {
    if l == "" {
      assert l + t == t;
    } else {
      assert (l + t)[1..] == l[1..] + t;
      TrimLeftOf(l[1..], t);
    }
  }

  lemma {:induction false} TrimRightOf(t: string, r: string)
    requires AllBlank(r) && (t != "" ==> !IsBlank(t[|t| - 1]))
    ensures TrimRight(t + r) == t
    decreases |r|
  {
    if r == "" {
      assert t + r == t;
    } else {
      assert (t + r)[..|t + r| - 1] == t + r[..|r| - 1];
      TrimRightOf(t, r[..|r| - 1]);
    }
  }

  lemma {:induction false} TrimLeftCut(s: string) returns (l: string)
    ensures AllBlank(l) && s == l + TrimLeft(s) && (TrimLeft(s) != "" ==> !IsBlank(TrimLeft(s)[0]))
  {
    hide IsBlank;
    if s != "" && IsBlank(s[0]) {
      l := TrimLeftCut(s[1..]);
      l := [s[0]] + l;
      assert s == [s[0]] + s[1..];
    } else {
      l := "";
    }
  }

  lemma {:induction false} TrimRightCut(s: string) returns (r: string)
    ensures AllBlank(r) && s == TrimRight(s) + r && TrimRight(s) <= s && (TrimRight(s) != "" ==> !IsBlank(TrimRight(s)[|TrimRight(s)| - 1]))
    decreases |s|
  {
    if s != "" && IsBlank(s[|s| - 1]) {
      r := TrimRightCut(s[..|s| - 1]);
      assert s == s[..|s| - 1] + [s[|s| - 1]];
      r := r + [s[|s| - 1]];
    } else {
      r := "";
    }
  }

  /** Trimming takes blanks off both ends and nothing else. */
  lemma TrimmedIs(s: string, t: string)
    ensures t == Trimmed(s) <==> TrimOf(s, t)
  {
    CutIsTrim(s, t);
    TrimmedCut(s, t);
    hide Trimmed, CutTo, TrimOf;
  }

  lemma TrimmedCut(s: string, t: string)
    ensures t == Trimmed(s) <==> CutTo(s, t)
  {
    CutThere(s);
    hide Trimmed, CutTo;
    if CutTo(s, t) { CutOnce(s, t); }
  }

  lemma CutThere(s: string)
    ensures CutTo(s, Trimmed(s))
  {
    hide TrimLeft, TrimRight, IsBlank, AllBlank;
    var l := TrimLeftCut(s);
    var r := TrimRightCut(TrimLeft(s));
    assert s == l + Trimmed(s) + r;
    assert Trimmed(s) != "" ==> Trimmed(s)[0] == TrimLeft(s)[0];
  }

  lemma CutOnce(s: string, t: string)
    requires CutTo(s, t)
    ensures t == Trimmed(s)
  {
    hide TrimLeft, TrimRight, IsBlank;
    var l, r :| AllBlank(l) && AllBlank(r) && s == l + t + r;
    if t == "" {
      assert s == (l + r) + "";
      TrimLeftOf(l + r, "");
      TrimRightOf("", "");
    } else {
      assert s == l + (t + r);
      TrimLeftOf(l, t + r);
      TrimRightOf(t, r);
    }
  }

  /** The value comes from the first line that has the field. */
  lemma {:induction false} FirstLineWins(lines: seq<string>, field: string, i: nat)
    requires i < |lines| && LineValue(lines[i], field).Some?
    requires forall j :: 0 <= j < i ==> LineValue(lines[j], field).None?
    ensures FieldIn(lines, field) == LineValue(lines[i], field)
  {
    hide LineValue;
    if i > 0 { FirstLineWins(lines[1..], field, i - 1); }
  }

  /** There is no value exactly if no line has the field. */
  lemma {:induction false} NoFieldExactly(lines: seq<string>, field: string)
    ensures FieldIn(lines, field).None? <==> forall j :: 0 <= j < |lines| ==> LineValue(lines[j], field).None?
  {
    hide LineValue;
    if lines != [] {
      NoFieldExactly(lines[1..], field);
      assert forall j :: 1 <= j < |lines| ==> lines[j] == lines[1..][j - 1];
      assert forall j :: 0 <= j < |lines[1..]| ==> lines[1..][j] == lines[j + 1];
    }
  }

  /** A line has the field with a value exactly if they are what spaces and tabs taken off leaves of the text before
      and behind its first colon. */
  lemma LineExactly(line: string, field: string, value: string)
    ensures LineValue(line, field) == Some(value) <==>
            exists p :: 0 <= p < |line| && line[p] == ':' && ':' !in line[..p] && TrimOf(line[..p], field) && TrimOf(line[p + 1..], value)
  {
    var p := Find(line, ':');
    assert forall i :: 0 <= i < p ==> line[i] != ':';
    hide Find, TrimOf, Trimmed;
    if p < |line| {
      TrimmedIs(line[..p], field);
      TrimmedIs(line[p + 1..], value);
    }
    if q :| 0 <= q < |line| && line[q] == ':' && ':' !in line[..q] && TrimOf(line[..q], field) && TrimOf(line[q + 1..], value) {
      assert forall i :: 0 <= i < q ==> line[i] in line[..q];
      assert q == p;
    }
  }
}
