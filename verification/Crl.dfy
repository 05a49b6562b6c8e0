/** Revocation by CRL (pki/crl.cc). */
module Crl {
  import opened Bytes
  import opened Der
  import opened Extensions
  import opened InputOrder
  import opened SortedSets
  import opened Times
  import opened Wrappers

  datatype CRLRevocationStatus = GOOD | REVOKED | UNKNOWN

  datatype CrlVersion = V1 | V2

  // ----- the entries of a revoked list

  datatype CrlEntry = CrlEntry(serial: Input, extensions: Option<seq<ParsedExtension>>)

  ghost predicate IsTime(t: Tlv) {
    || (t.tag == UTCTIME && exists u: GeneralizedTime :: Times.Valid(u) && u.InUTCTimeRange() && Encodable(u) && t.value == UTCText(u))
    || (t.tag == GENERALIZEDTIME && exists u: GeneralizedTime :: Times.Valid(u) && Encodable(u) && t.value == GeneralizedText(u))
  }

  /** The octets of the element are the digits of the time and Z: a UTCTime of 1950 to 2049, or a GeneralizedTime to 9999. */
  predicate WritesTime(t: Tlv, u: GeneralizedTime) {
    || (t.tag == 0x17 && 1950 <= u.year <= 2049 && WritesAt(t.value, 0, u.year % 100) && WritesTail(t.value, 2, u))
    || (t.tag == 0x18 && u.year <= 9999
        && WritesAt(t.value, 0, u.year / 100) && WritesAt(t.value, 2, u.year % 100) && WritesTail(t.value, 4, u))
  }

  /** An element is read as a time exactly if its octets write one that is valid. */
  lemma TimeExactly(t: Tlv)
    ensures IsTime(t) <==> exists u: GeneralizedTime :: Times.Valid(u) && WritesTime(t, u)
  {
    forall u: GeneralizedTime | Times.Valid(u) && u.year <= 9999
      ensures Encodable(u)
      ensures t.value == UTCText(u) <==> WritesAt(t.value, 0, u.year % 100) && WritesTail(t.value, 2, u)
      ensures t.value == GeneralizedText(u) <==> WritesAt(t.value, 0, u.year / 100) && WritesAt(t.value, 2, u.year % 100) && WritesTail(t.value, 4, u)
    {
      ValidEncodable(u);
      UTCTextExactly(u, t.value);
      GeneralizedTextExactly(u, t.value);
    }
    hide Times.Valid, UTCText, GeneralizedText, WritesAt, WritesTail;
  }

  lemma ValidEncodable(u: GeneralizedTime)
    requires Times.Valid(u) && u.year <= 9999
    ensures Encodable(u)
  {
  }

  /** A serial number, a time, and optionally extensions. */
  ghost function EntryFields(es: seq<Tlv>): Option<CrlEntry> {
    if |es| < 2 || |es| > 3 || es[0].tag != INTEGER || !IsTime(es[1]) then None
    else if |es| == 2 then Some(CrlEntry(es[0].value, None))
    else if AcceptedExtensions(es[2].raw).None? then None
    else Some(CrlEntry(es[0].value, AcceptedExtensions(es[2].raw)))
  }

  ghost function EntryOf(t: Tlv): Option<CrlEntry> {
    if t.tag != SEQUENCE || Elements(t.value).None? then None else EntryFields(Elements(t.value).value)
  }

  /** Extensions need version 2, and none may be critical: the source knows no entry extension. */
  ghost predicate Usable(e: CrlEntry, version: CrlVersion) {
    e.extensions.Some? ==> version == V2 && forall i :: 0 <= i < |e.extensions.value| ==> !e.extensions.value[i].critical
  }

  /** The entry of an element, when the source goes on to the next one after it. */
  ghost function UsableEntry(t: Tlv, version: CrlVersion): Option<CrlEntry> {
    var e := EntryOf(t);
    if e.Some? && Usable(e.value, version) then e else None
  }

  ghost function EntryReader(version: CrlVersion): Tlv -> Option<CrlEntry> {
    t => UsableEntry(t, version)
  }

  /** The elements of a revokedCertificates field: one sequence, not empty. */
  ghost function EntriesIn(tlv: Input): Option<seq<Tlv>> {
    var outer := Elements(tlv);
    if outer.None? || |outer.value| != 1 || outer.value[0].tag != SEQUENCE || outer.value[0].value == [] then None
    else Elements(outer.value[0].value)
  }

  ghost function UsableEntries(tlv: Input, version: CrlVersion): Option<seq<CrlEntry>> {
    if EntriesIn(tlv).None? then None else AllOf(EntriesIn(tlv).value, EntryReader(version))
  }

  ghost predicate Lists(es: seq<CrlEntry>, serial: Input) {
    exists i :: 0 <= i < |es| && es[i].serial == serial
  }

  /** The answer a list of entries gives: unknown as soon as one entry cannot be used. */
  ghost function StatusIn(es: Option<seq<CrlEntry>>, serial: Input): CRLRevocationStatus {
    if es.None? then UNKNOWN else if Lists(es.value, serial) then REVOKED else GOOD
  }

  ghost function StatusOf(serial: Input, version: CrlVersion, revoked: Option<Input>): CRLRevocationStatus {
    if revoked.None? then GOOD else StatusIn(UsableEntries(revoked.value, version), serial)
  }

  /** ReadUTCOrGeneralizedTime of pki/parse_certificate.cc. */
  method ReadUTCOrGeneralizedTime(parser: Parser) returns (ok: bool, time: GeneralizedTime)
    modifies parser
    ensures ok <==> ReadElement(old(parser.rest)).Some? && IsTime(ReadElement(old(parser.rest)).value)
    ensures ok ==> old(parser.rest) == ReadElement(old(parser.rest)).value.raw + parser.rest
    ensures ok ==> Times.Valid(time) && Encodable(time)
                   && ReadElement(old(parser.rest)).value.value
                      == if ReadElement(old(parser.rest)).value.tag == UTCTIME then UTCText(time) else GeneralizedText(time)
  {
    hide ReadElement, Times.Valid, UTCText, GeneralizedText;
    var tag, value;
    ok, tag, value := parser.ReadTagAndValue();
    time := GeneralizedTime(0, 0, 0, 0, 0, 0);
    if !ok { return; }
    if tag == UTCTIME {
      ok, time := ParseUTCTime(value);
      return;
    }
    if tag == GENERALIZEDTIME {
      ok, time := ParseGeneralizedTime(value);
      return;
    }
    ok := false;
  }

  /** One entry; None when the source gives up on the whole list. */
  method ReadEntry(parser: Parser, version: CrlVersion, ghost t: Tlv) returns (serial: Option<Input>)
    requires t.tag == SEQUENCE && parser.rest == t.value
    modifies parser
    ensures serial.Some? <==> UsableEntry(t, version).Some?
    ensures serial.Some? ==> serial.value == UsableEntry(t, version).value.serial
  {
    hide ReadElement, IsTime, AcceptedExtensions;
    ghost var s0 := parser.rest;
    var ok, number := parser.ReadTag(INTEGER);
    if !ok { return None; }
    AfterFirst(s0, ReadElement(s0).value);
    ghost var s1 := parser.rest;
    assert s1 == s0[|ReadElement(s0).value.raw|..];
    var unused;
    ok, unused := ReadUTCOrGeneralizedTime(parser);
    if !ok { return None; }
    AfterFirst(s1, ReadElement(s1).value);
    ghost var s2 := parser.rest;
    assert s2 == s1[|ReadElement(s1).value.raw|..];
    if parser.HasMore() {
      if version != V2 { return None; }
      var tlv;
      ok, tlv := parser.ReadRawTLV();
      if !ok { return None; }
      AfterFirst(s2, ReadElement(s2).value);
      assert parser.rest == s2[|ReadElement(s2).value.raw|..];
      var extensions := new UnconsumedExtensions();
      ok := extensions.Parse(tlv);
      if !ok { return None; }
      var critical := extensions.HasCritical(None);
      CriticalAnywhere(extensions.extensions, AcceptedExtensions(tlv).value);
      if critical { return None; }
    }
    if parser.HasMore() { return None; }
    return Some(number);
  }

  /** The search for a serial number, which goes through the whole list even when it has found it. */
  method GetCRLStatusForCert(certSerial: Input, version: CrlVersion, revoked: Option<Input>) returns (status: CRLRevocationStatus)
    ensures status == StatusOf(certSerial, version, revoked)
  {
    hide ReadElement, UsableEntry, AllOf;
    if revoked.None? { return GOOD; }
    var parser := new Parser(revoked.value);
    var ok, entries := parser.ReadSequence();
    if !ok { return UNKNOWN; }
    AfterFirst(revoked.value, ReadElement(revoked.value).value);
    assert parser.rest == revoked.value[|ReadElement(revoked.value).value.raw|..];
    if !entries.HasMore() { return UNKNOWN; }
    if parser.HasMore() { return UNKNOWN; }

    ghost var s, f := entries.rest, EntryReader(version);
    ghost var done: seq<Tlv>, out: seq<CrlEntry> := [], [];
    var foundMatchingSerial := false;
    ReadNothing(s);
    assert AllOf([], f) == Some([]);
    while entries.HasMore()
      invariant ReadSoFar(s, done, entries.rest)
      invariant AllOf(done, f) == Some(out)
      invariant foundMatchingSerial <==> Lists(out, certSerial)
      decreases |entries.rest|
    {
      ghost var rest := entries.rest;
      var entry;
      ok, entry := entries.ReadSequence();
      if !ok {
        if ReadElement(rest).Some? { NotAnEntry(ReadElement(rest).value, version); }
        ListStops(s, done, rest, f);
        return UNKNOWN;
      }
      ghost var t := ReadElement(rest).value;
      var serial := ReadEntry(entry, version, t);
      if serial.None? {
        ListStops(s, done, rest, f);
        return UNKNOWN;
      }
      ListOneMore(s, done, rest, f, out);
      assert rest[|t.raw|..] == entries.rest;
      ListsOneMore(out, f(t).value, certSerial);
      if serial.value == certSerial {
        foundMatchingSerial := true;
      }
      done, out := done + [t], out + [f(t).value];
    }
    ReadAllOf(s, done);
    status := if foundMatchingSerial then REVOKED else GOOD;
  }

  lemma NotAnEntry(t: Tlv, version: CrlVersion)
    requires t.tag != SEQUENCE
    ensures UsableEntry(t, version).None?
  {
  }

  lemma ListsOneMore(es: seq<CrlEntry>, e: CrlEntry, serial: Input)
    ensures Lists(es + [e], serial) <==> Lists(es, serial) || e.serial == serial
  {
    if e.serial == serial { assert (es + [e])[|es|].serial == serial; }
    if i :| 0 <= i < |es| && es[i].serial == serial { assert (es + [e])[i].serial == serial; }
  }

  // ----- the answer, by what the octets hold

  /** The entry is a sequence of a number, a time and, under version 2, extensions none of which is critical. */
  ghost predicate GoodEntry(t: Tlv, version: CrlVersion) {
    && t.tag == SEQUENCE && Elements(t.value).Some?
    && var es := Elements(t.value).value;
       && (|es| == 2 || |es| == 3) && es[0].tag == INTEGER && IsTime(es[1])
       && (|es| == 3 ==>
             && version == V2 && AcceptedExtensions(es[2].raw).Some?
             && forall x :: x in AcceptedExtensions(es[2].raw).value ==> !x.critical)
  }

  lemma EntryExactly(t: Tlv, version: CrlVersion)
    ensures UsableEntry(t, version).Some? <==> GoodEntry(t, version)
    ensures GoodEntry(t, version) ==> UsableEntry(t, version).value.serial == Elements(t.value).value[0].value
  {
    hide IsTime, AcceptedExtensions, Elements;
    if EntryOf(t).Some? && |Elements(t.value).value| == 3 {
      var xs := AcceptedExtensions(Elements(t.value).value[2].raw).value;
      assert forall x :: x in xs ==> exists i :: 0 <= i < |xs| && xs[i] == x;
      assert forall i :: 0 <= i < |xs| ==> xs[i] in xs;
    }
  }

  /** A field that is not one sequence of one element or more, or that holds one bad entry anywhere, answers unknown to
      every serial number; any other answers revoked exactly to the serial numbers that start its entries. */
  lemma StatusExactly(serial: Input, version: CrlVersion, field: Input)
    ensures StatusOf(serial, version, Some(field))
            == if EntriesIn(field).None? || exists t :: t in EntriesIn(field).value && !GoodEntry(t, version) then UNKNOWN
               else if exists t :: t in EntriesIn(field).value && Elements(t.value).value[0].value == serial then REVOKED
               else GOOD
  {
    hide UsableEntry, GoodEntry, EntriesIn, AllOf;
    if EntriesIn(field).Some? {
      var ts, f := EntriesIn(field).value, EntryReader(version);
      forall t ensures f(t).Some? <==> GoodEntry(t, version) { EntryExactly(t, version); }
      if AllOf(ts, f).None? {
        var i :| 0 <= i < |ts| && f(ts[i]).None?;
        assert ts[i] in ts && !GoodEntry(ts[i], version);
      } else {
        AllGood(ts, version);
        ListsOfElements(ts, version, serial);
        forall t | t in ts ensures HasSerial(t, version, serial) <==> Elements(t.value).value[0].value == serial {
          EntryExactly(t, version);
        }
        hide HasSerial;
      }
    }
  }

  lemma AllGood(ts: seq<Tlv>, version: CrlVersion)
    requires AllOf(ts, EntryReader(version)).Some?
    ensures forall t :: t in ts ==> GoodEntry(t, version) && Elements(t.value).Some? && Elements(t.value).value != []
  {
    hide UsableEntry, AllOf;
    forall t | t in ts ensures GoodEntry(t, version) && Elements(t.value).Some? && Elements(t.value).value != [] {
      var i :| 0 <= i < |ts| && ts[i] == t;
      assert EntryReader(version)(ts[i]).Some?;
      EntryExactly(t, version);
    }
  }

  /** One critical extension in one entry, wherever it stands, leaves no certificate an answer. */
  lemma CriticalEntryRefuses(serial: Input, version: CrlVersion, field: Input, t: Tlv, x: ParsedExtension)
    requires EntriesIn(field).Some? && t in EntriesIn(field).value
    requires Elements(t.value).Some? && |Elements(t.value).value| == 3
    requires AcceptedExtensions(Elements(t.value).value[2].raw).Some?
    requires x in AcceptedExtensions(Elements(t.value).value[2].raw).value && x.critical
    ensures StatusOf(serial, version, Some(field)) == UNKNOWN
  {
    hide StatusOf, EntriesIn, Elements, AcceptedExtensions;
    StatusExactly(serial, version, field);
  }

  // ----- the answer does not depend on where entries stand

  lemma AllOfPermuted<T>(ts: seq<Tlv>, us: seq<Tlv>, f: Tlv -> Option<T>)
    requires multiset(ts) == multiset(us)
    ensures AllOf(ts, f).None? <==> AllOf(us, f).None?
  {
    assert forall t :: t in ts <==> t in multiset(ts);
    assert forall t :: t in us <==> t in multiset(us);
    hide AllOf;
    if AllOf(ts, f).None? {
      var i :| 0 <= i < |ts| && f(ts[i]).None?;
      assert ts[i] in us;
      var j :| 0 <= j < |us| && us[j] == ts[i];
      assert f(us[j]).None?;
    }
    if AllOf(us, f).None? {
      var i :| 0 <= i < |us| && f(us[i]).None?;
      assert us[i] in ts;
      var j :| 0 <= j < |ts| && ts[j] == us[i];
      assert f(ts[j]).None?;
    }
  }

  /** Fields that list the same elements in any two orders give every certificate the same answer. */
  lemma StatusIgnoresOrder(a: Input, b: Input, serial: Input, version: CrlVersion)
    requires EntriesIn(a).Some? && EntriesIn(b).Some? && multiset(EntriesIn(a).value) == multiset(EntriesIn(b).value)
    ensures StatusOf(serial, version, Some(a)) == StatusOf(serial, version, Some(b))
  {
    hide EntriesIn;
    ListStatusPermuted(EntriesIn(a).value, EntriesIn(b).value, serial, version);
  }

  lemma ListStatusPermuted(ts: seq<Tlv>, us: seq<Tlv>, serial: Input, version: CrlVersion)
    requires multiset(ts) == multiset(us)
    ensures StatusIn(AllOf(ts, EntryReader(version)), serial) == StatusIn(AllOf(us, EntryReader(version)), serial)
  {
    hide UsableEntry, AllOf;
    var f := EntryReader(version);
    AllOfPermuted(ts, us, f);
    if AllOf(ts, f).Some? {
      ListsOfElements(ts, version, serial);
      ListsOfElements(us, version, serial);
      assert forall t :: t in ts <==> t in multiset(ts);
      assert forall t :: t in us <==> t in multiset(us);
    }
  }

  ghost predicate HasSerial(t: Tlv, version: CrlVersion, serial: Input) {
    UsableEntry(t, version).Some? && UsableEntry(t, version).value.serial == serial
  }

  lemma ListsOfElements(ts: seq<Tlv>, version: CrlVersion, serial: Input)
    requires AllOf(ts, EntryReader(version)).Some?
    ensures Lists(AllOf(ts, EntryReader(version)).value, serial) <==> exists t :: t in ts && HasSerial(t, version, serial)
  {
    hide UsableEntry, AllOf;
    var f := EntryReader(version);
    var es := AllOf(ts, f).value;
    if i :| 0 <= i < |es| && es[i].serial == serial {
      assert f(ts[i]) == Some(es[i]);
      assert ts[i] in ts && HasSerial(ts[i], version, serial);
    }
    if t :| t in ts && HasSerial(t, version, serial) {
      var i :| 0 <= i < |ts| && ts[i] == t;
      assert f(ts[i]) == Some(es[i]);
    }
  }

  /** One more entry, wherever it stands: a bad one takes the answer away, a good one only adds to what is revoked. */
  lemma MoreEntriesOnlyTighten(a: Input, b: Input, p: seq<Tlv>, t: Tlv, q: seq<Tlv>, serial: Input, version: CrlVersion)
    requires EntriesIn(a) == Some(p + q) && EntriesIn(b) == Some(p + [t] + q)
    ensures StatusOf(serial, version, Some(b))
            == if UsableEntry(t, version).None? || UsableEntries(a, version).None? then UNKNOWN
               else if HasSerial(t, version, serial) then REVOKED
               else StatusOf(serial, version, Some(a))
  {
    hide EntriesIn;
    ListStatusPermuted(p + [t] + q, (p + q) + [t], serial, version);
    OneMoreEntry(p + q, t, serial, version);
  }

  lemma OneMoreEntry(ts: seq<Tlv>, t: Tlv, serial: Input, version: CrlVersion)
    ensures var f := EntryReader(version);
            StatusIn(AllOf(ts + [t], f), serial)
            == if UsableEntry(t, version).None? || AllOf(ts, f).None? then UNKNOWN
               else if HasSerial(t, version, serial) then REVOKED
               else StatusIn(AllOf(ts, f), serial)
  {
    hide UsableEntry;
    var f, us := EntryReader(version), ts + [t];
    assert us[..|ts|] == ts;
    if AllOf(ts, f).Some? && f(t).Some? { ListsOneMore(AllOf(ts, f).value, f(t).value, serial); }
  }

  // ----- names in common

  /** ContainsExactMatchingName: sorting both sides and merging finds a common name exactly when there is one. */
  method ContainsExactMatchingName(a: seq<Input>, b: seq<Input>) returns (found: bool)
    ensures found <==> exists x :: x in a && x in b
  {
    hide Less;
    var a' := Sort(a);
    var b' := Sort(b);
    assert forall x :: x in a <==> x in multiset(a);
    assert forall x :: x in b <==> x in multiset(b);
    assert forall x :: x in a' <==> x in multiset(a');
    assert forall x :: x in b' <==> x in multiset(b');
    var namesInCommon := SetIntersection(a', b');
    found := namesInCommon != [];
    if found { assert namesInCommon[0] in namesInCommon; }
  }
}
