/** GeneralName parsing into typed lists and a bit field (pki/general_names.cc). */
module GeneralNames {
  import opened Bytes
  import opened Der
  import opened IpUtil
  import opened Strings
  import opened Wrappers

  type NameTypes = bv16

  const NAME_NONE: NameTypes := 0
  const OTHER_NAME: NameTypes := 1
  const RFC822_NAME: NameTypes := 2
  const DNS_NAME: NameTypes := 4
  const X400_ADDRESS: NameTypes := 8
  const DIRECTORY_NAME: NameTypes := 16
  const EDI_PARTY_NAME: NameTypes := 32
  const UNIFORM_RESOURCE_IDENTIFIER: NameTypes := 64
  const IP_ADDRESS: NameTypes := 128
  const REGISTERED_ID: NameTypes := 256
  const ALL_TYPES: NameTypes := 511

  /** The type b is in the field x. */
  predicate HasBit(x: NameTypes, b: NameTypes) {
    x & b != 0
  }

  function WithBit(x: NameTypes, b: NameTypes): NameTypes {
    x | b
  }

  datatype CertErrorId =
    | RFC822NameNotAscii | DnsNameNotAscii | URINotAscii | FailedParsingIp | UnknownGeneralNameType
    | FailedReadingGeneralName | FailedParsingGeneralName | GeneralNamesEmpty
    | TooManyNameConstraintChecks | NotPermittedByNameConstraints

  /** The list of errors a caller collects. */
  class CertErrors {
    var nodes: seq<CertErrorId>

    constructor ()
      ensures nodes == []
    {
      nodes := [];
    }

    method AddError(id: CertErrorId)
      modifies this
      ensures nodes == old(nodes) + [id]
    {
      nodes := nodes + [id];
    }
  }

  datatype IPAddressType = IP_ADDRESS_ONLY | IP_ADDRESS_AND_NETMASK

  /** One parsed name. */
  datatype GeneralName =
    | OtherName(other: Input)
    | Rfc822Name(mailbox: string)
    | DNSName(dns: string)
    | X400Address(x400: Input)
    | DirectoryName(rdns: Input)
    | EdiPartyName(edi: Input)
    | UniformResourceIdentifier(uri: string)
    | IPAddress(ip: Input)
    | IPAddressRange(net: Input, mask: Input)
    | RegisteredID(oid: Input)

  datatype Reading = Accepted(name: GeneralName) | Rejected(errors: seq<CertErrorId>)

  /** A bare address, or an address and a netmask of the same size. */
  ghost function ReadIP(v: Input, ipType: IPAddressType): (r: Reading)
    ensures r.Accepted? ==> r.name.IPAddress? || r.name.IPAddressRange?
  {
    var half := |v| / 2;
    if ipType.IP_ADDRESS_ONLY? then
      if |v| == IPV4_ADDRESS_SIZE || |v| == IPV6_ADDRESS_SIZE then Accepted(IPAddress(v)) else Rejected([FailedParsingIp])
    else if |v| == 2 * half && ValidNetmask(v[half..]) then Accepted(IPAddressRange(v[..half], v[half..]))
    else Rejected([FailedParsingIp])
  }

  /** The nine forms by their context tags, with the checks each one gets. */
  ghost function ReadValue(tag: nat, v: Input, trailing: bool, ipType: IPAddressType): Reading {
    if tag == CONTEXT_SPECIFIC + CONSTRUCTED + 0 then Accepted(OtherName(v))
    else if tag == CONTEXT_SPECIFIC + 1 then
      if IsAscii(AsText(v)) then Accepted(Rfc822Name(AsText(v))) else Rejected([RFC822NameNotAscii])
    else if tag == CONTEXT_SPECIFIC + 2 then
      if IsAscii(AsText(v)) then Accepted(DNSName(AsText(v))) else Rejected([DnsNameNotAscii])
    else if tag == CONTEXT_SPECIFIC + CONSTRUCTED + 3 then Accepted(X400Address(v))
    else if tag == CONTEXT_SPECIFIC + CONSTRUCTED + 4 then
      var n := ReadElement(v);
      if n.Some? && n.value.tag == SEQUENCE && !trailing then Accepted(DirectoryName(n.value.value)) else Rejected([])
    else if tag == CONTEXT_SPECIFIC + CONSTRUCTED + 5 then Accepted(EdiPartyName(v))
    else if tag == CONTEXT_SPECIFIC + 6 then
      if IsAscii(AsText(v)) then Accepted(UniformResourceIdentifier(AsText(v))) else Rejected([URINotAscii])
    else if tag == CONTEXT_SPECIFIC + 7 then ReadIP(v, ipType)
    else if tag == CONTEXT_SPECIFIC + 8 then Accepted(RegisteredID(v))
    else Rejected([UnknownGeneralNameType])
  }

  /** The name that an encoding holds. */
  ghost function Read(input: Input, ipType: IPAddressType): Reading {
    var e := ReadElement(input);
    if e.None? then Rejected([]) else ReadValue(e.value.tag, e.value.value, e.value.raw != input, ipType)
  }

  /** The lists of a GeneralNames object, as a value. */
  datatype NameLists = NameLists(
    otherNames: seq<Input>, rfc822Names: seq<string>, dnsNames: seq<string>, x400Addresses: seq<Input>,
    directoryNames: seq<Input>, ediPartyNames: seq<Input>, uniformResourceIdentifiers: seq<string>,
    ipAddresses: seq<Input>, ipAddressRanges: seq<(Input, Input)>, registeredIds: seq<Input>, presentNameTypes: NameTypes)

  const EMPTY := NameLists([], [], [], [], [], [], [], [], [], [], NAME_NONE)

  function TypeBit(n: GeneralName): NameTypes {
    match n
    case OtherName(_) => OTHER_NAME
    case Rfc822Name(_) => RFC822_NAME
    case DNSName(_) => DNS_NAME
    case X400Address(_) => X400_ADDRESS
    case DirectoryName(_) => DIRECTORY_NAME
    case EdiPartyName(_) => EDI_PARTY_NAME
    case UniformResourceIdentifier(_) => UNIFORM_RESOURCE_IDENTIFIER
    case IPAddress(_) => IP_ADDRESS
    case IPAddressRange(_, _) => IP_ADDRESS
    case RegisteredID(_) => REGISTERED_ID
  }

  /** The lists with one more name, in the list of its kind and no other. */
  function Added(g: NameLists, n: GeneralName): NameLists {
    var h := g.(presentNameTypes := WithBit(g.presentNameTypes, TypeBit(n)));
    match n
    case OtherName(v) => h.(otherNames := g.otherNames + [v])
    case Rfc822Name(s) => h.(rfc822Names := g.rfc822Names + [s])
    case DNSName(s) => h.(dnsNames := g.dnsNames + [s])
    case X400Address(v) => h.(x400Addresses := g.x400Addresses + [v])
    case DirectoryName(v) => h.(directoryNames := g.directoryNames + [v])
    case EdiPartyName(v) => h.(ediPartyNames := g.ediPartyNames + [v])
    case UniformResourceIdentifier(s) => h.(uniformResourceIdentifiers := g.uniformResourceIdentifiers + [s])
    case IPAddress(v) => h.(ipAddresses := g.ipAddresses + [v])
    case IPAddressRange(a, m) => h.(ipAddressRanges := g.ipAddressRanges + [(a, m)])
    case RegisteredID(v) => h.(registeredIds := g.registeredIds + [v])
  }

  /** An accepted name is added and nothing else changes; a rejected one only reports its errors. */
  ghost predicate Stored(reading: Reading, ok: bool, before: NameLists, after: NameLists,
                         errsBefore: seq<CertErrorId>, errsAfter: seq<CertErrorId>)
  {
    match reading
    case Accepted(n) => ok && after == Added(before, n) && errsAfter == errsBefore
    case Rejected(e) => !ok && after == before && errsAfter == errsBefore + e
  }

  /** Each bit of the field says whether the list of its kind is non-empty. */
  predicate BitsAgree(g: NameLists) {
    && (HasBit(g.presentNameTypes, OTHER_NAME) <==> g.otherNames != [])
    && (HasBit(g.presentNameTypes, RFC822_NAME) <==> g.rfc822Names != [])
    && (HasBit(g.presentNameTypes, DNS_NAME) <==> g.dnsNames != [])
    && (HasBit(g.presentNameTypes, X400_ADDRESS) <==> g.x400Addresses != [])
    && (HasBit(g.presentNameTypes, DIRECTORY_NAME) <==> g.directoryNames != [])
    && (HasBit(g.presentNameTypes, EDI_PARTY_NAME) <==> g.ediPartyNames != [])
    && (HasBit(g.presentNameTypes, UNIFORM_RESOURCE_IDENTIFIER) <==> g.uniformResourceIdentifiers != [])
    && (HasBit(g.presentNameTypes, IP_ADDRESS) <==> g.ipAddresses != [] || g.ipAddressRanges != [])
    && (HasBit(g.presentNameTypes, REGISTERED_ID) <==> g.registeredIds != [])
    && !HasBit(g.presentNameTypes, !ALL_TYPES)
  }

  predicate IsTypeBit(b: NameTypes) {
    || b == OTHER_NAME || b == RFC822_NAME || b == DNS_NAME || b == X400_ADDRESS || b == DIRECTORY_NAME
    || b == EDI_PARTY_NAME || b == UNIFORM_RESOURCE_IDENTIFIER || b == IP_ADDRESS || b == REGISTERED_ID
  }

  /** ORing in one type bit sets that bit and no other. */
  lemma SetBit(x: NameTypes, b: NameTypes)
    requires IsTypeBit(b)
    ensures HasBit(WithBit(x, b), OTHER_NAME) <==> HasBit(x, OTHER_NAME) || b == OTHER_NAME
    ensures HasBit(WithBit(x, b), RFC822_NAME) <==> HasBit(x, RFC822_NAME) || b == RFC822_NAME
    ensures HasBit(WithBit(x, b), DNS_NAME) <==> HasBit(x, DNS_NAME) || b == DNS_NAME
    ensures HasBit(WithBit(x, b), X400_ADDRESS) <==> HasBit(x, X400_ADDRESS) || b == X400_ADDRESS
    ensures HasBit(WithBit(x, b), DIRECTORY_NAME) <==> HasBit(x, DIRECTORY_NAME) || b == DIRECTORY_NAME
    ensures HasBit(WithBit(x, b), EDI_PARTY_NAME) <==> HasBit(x, EDI_PARTY_NAME) || b == EDI_PARTY_NAME
    ensures HasBit(WithBit(x, b), UNIFORM_RESOURCE_IDENTIFIER) <==> HasBit(x, UNIFORM_RESOURCE_IDENTIFIER) || b == UNIFORM_RESOURCE_IDENTIFIER
    ensures HasBit(WithBit(x, b), IP_ADDRESS) <==> HasBit(x, IP_ADDRESS) || b == IP_ADDRESS
    ensures HasBit(WithBit(x, b), REGISTERED_ID) <==> HasBit(x, REGISTERED_ID) || b == REGISTERED_ID
    ensures HasBit(WithBit(x, b), !ALL_TYPES) <==> HasBit(x, !ALL_TYPES)
  {
  }

  /** Adding a name keeps every bit in step with its list. */
  lemma AddedKeepsBits(g: NameLists, n: GeneralName)
    requires BitsAgree(g)
    ensures BitsAgree(Added(g, n))
  {
    hide HasBit, WithBit;
    SetBit(g.presentNameTypes, TypeBit(n));
    ListsAdded(g, n);
    hide Added;
  }

  /** A list is non-empty afterwards when it was before or is the list of the new name. */
  lemma ListsAdded(g: NameLists, n: GeneralName)
    ensures var h := Added(g, n);
            && h.presentNameTypes == WithBit(g.presentNameTypes, TypeBit(n))
            && (h.otherNames != [] <==> g.otherNames != [] || n.OtherName?)
            && (h.rfc822Names != [] <==> g.rfc822Names != [] || n.Rfc822Name?)
            && (h.dnsNames != [] <==> g.dnsNames != [] || n.DNSName?)
            && (h.x400Addresses != [] <==> g.x400Addresses != [] || n.X400Address?)
            && (h.directoryNames != [] <==> g.directoryNames != [] || n.DirectoryName?)
            && (h.ediPartyNames != [] <==> g.ediPartyNames != [] || n.EdiPartyName?)
            && (h.uniformResourceIdentifiers != [] <==> g.uniformResourceIdentifiers != [] || n.UniformResourceIdentifier?)
            && (h.ipAddresses != [] || h.ipAddressRanges != [] <==>
                g.ipAddresses != [] || g.ipAddressRanges != [] || n.IPAddress? || n.IPAddressRange?)
            && (h.registeredIds != [] <==> g.registeredIds != [] || n.RegisteredID?)
  {
    hide HasBit, WithBit, TypeBit;
  }

  /** A GeneralNames object: typed lists that grow in place, and the bit field of present types. */
  class GeneralNames {
    var otherNames: seq<Input>
    var rfc822Names: seq<string>
    var dnsNames: seq<string>
    var x400Addresses: seq<Input>
    var directoryNames: seq<Input>
    var ediPartyNames: seq<Input>
    var uniformResourceIdentifiers: seq<string>
    var ipAddresses: seq<Input>
    var ipAddressRanges: seq<(Input, Input)>
    var registeredIds: seq<Input>
    var presentNameTypes: NameTypes

    constructor ()
      ensures Lists() == EMPTY
    {
      otherNames, rfc822Names, dnsNames, x400Addresses, directoryNames := [], [], [], [], [];
      ediPartyNames, uniformResourceIdentifiers, ipAddresses, ipAddressRanges, registeredIds := [], [], [], [], [];
      presentNameTypes := NAME_NONE;
    }

    function Lists(): NameLists
      reads this
    {
      NameLists(otherNames, rfc822Names, dnsNames, x400Addresses, directoryNames, ediPartyNames,
                uniformResourceIdentifiers, ipAddresses, ipAddressRanges, registeredIds, presentNameTypes)
    }
  }

  lemma NetmaskSizes(v: Input)
    ensures var half := |v| / 2;
            |v| == 2 * half && ValidNetmask(v[half..]) ==> |v| == 2 * IPV4_ADDRESS_SIZE || |v| == 2 * IPV6_ADDRESS_SIZE
  {
  }

  /** The iPAddress form, apart from its type bit. */
  method ParseIPAddress(value: Input, ipAddressType: IPAddressType, subtrees: GeneralNames, errors: CertErrors) returns (ok: bool)
    modifies subtrees`ipAddresses, subtrees`ipAddressRanges, errors
    ensures match ReadIP(value, ipAddressType)
            case Accepted(n) =>
              ok && errors.nodes == old(errors.nodes) &&
              subtrees.Lists() == Added(old(subtrees.Lists()), n).(presentNameTypes := old(subtrees.presentNameTypes))
            case Rejected(e) => !ok && subtrees.Lists() == old(subtrees.Lists()) && errors.nodes == old(errors.nodes) + e
  {
    hide ValidNetmask;
    NetmaskSizes(value);
    if ipAddressType.IP_ADDRESS_ONLY? {
      if |value| != IPV4_ADDRESS_SIZE && |value| != IPV6_ADDRESS_SIZE {
        errors.AddError(FailedParsingIp);
        return false;
      }
      subtrees.ipAddresses := subtrees.ipAddresses + [value];
    } else {
      if |value| != IPV4_ADDRESS_SIZE * 2 && |value| != IPV6_ADDRESS_SIZE * 2 {
        errors.AddError(FailedParsingIp);
        return false;
      }
      var addr, mask := value[..|value| / 2], value[|value| / 2..];
      var okMask := IsValidNetmask(mask);
      if !okMask {
        errors.AddError(FailedParsingIp);
        return false;
      }
      subtrees.ipAddressRanges := subtrees.ipAddressRanges + [(addr, mask)];
    }
    return true;
  }

  /** The three forms that are ASCII text. */
  method AddTextName(tag: nat, value: Input, trailing: bool, ipAddressType: IPAddressType, subtrees: GeneralNames, errors: CertErrors)
    returns (ok: bool)
    requires tag == CONTEXT_SPECIFIC + 1 || tag == CONTEXT_SPECIFIC + 2 || tag == CONTEXT_SPECIFIC + 6
    modifies subtrees, errors
    ensures Stored(ReadValue(tag, value, trailing, ipAddressType), ok, old(subtrees.Lists()), subtrees.Lists(), old(errors.nodes), errors.nodes)
  {
    hide IsAscii, WithBit;
    var nameType: NameTypes := NAME_NONE;
    var s := AsText(value);
    ok := true;
    if tag == CONTEXT_SPECIFIC + 1 {
      nameType := RFC822_NAME;
      if !IsAscii(s) {
        errors.AddError(RFC822NameNotAscii);
        return false;
      }
      subtrees.rfc822Names := subtrees.rfc822Names + [s];
    } else if tag == CONTEXT_SPECIFIC + 2 {
      nameType := DNS_NAME;
      if !IsAscii(s) {
        errors.AddError(DnsNameNotAscii);
        return false;
      }
      subtrees.dnsNames := subtrees.dnsNames + [s];
    } else {
      nameType := UNIFORM_RESOURCE_IDENTIFIER;
      if !IsAscii(s) {
        errors.AddError(URINotAscii);
        return false;
      }
      subtrees.uniformResourceIdentifiers := subtrees.uniformResourceIdentifiers + [s];
    }
    subtrees.presentNameTypes := WithBit(subtrees.presentNameTypes, nameType);
  }

  /** The forms stored as octets: everything but text, directory names and addresses. */
  method AddOctets(tag: nat, value: Input, trailing: bool, ipAddressType: IPAddressType, subtrees: GeneralNames)
    returns (known: bool)
    modifies subtrees
    ensures known <==> tag in {CONTEXT_SPECIFIC + CONSTRUCTED + 0, CONTEXT_SPECIFIC + CONSTRUCTED + 3,
                               CONTEXT_SPECIFIC + CONSTRUCTED + 5, CONTEXT_SPECIFIC + 8}
    ensures known ==> Stored(ReadValue(tag, value, trailing, ipAddressType), true, old(subtrees.Lists()), subtrees.Lists(), [], [])
    ensures !known ==> subtrees.Lists() == old(subtrees.Lists())
  {
    hide WithBit;
    var nameType: NameTypes := NAME_NONE;
    known := true;
    if tag == CONTEXT_SPECIFIC + CONSTRUCTED + 0 {
      nameType := OTHER_NAME;
      subtrees.otherNames := subtrees.otherNames + [value];
    } else if tag == CONTEXT_SPECIFIC + CONSTRUCTED + 3 {
      nameType := X400_ADDRESS;
      subtrees.x400Addresses := subtrees.x400Addresses + [value];
    } else if tag == CONTEXT_SPECIFIC + CONSTRUCTED + 5 {
      nameType := EDI_PARTY_NAME;
      subtrees.ediPartyNames := subtrees.ediPartyNames + [value];
    } else if tag == CONTEXT_SPECIFIC + 8 {
      nameType := REGISTERED_ID;
      subtrees.registeredIds := subtrees.registeredIds + [value];
    } else {
      return false;
    }
    subtrees.presentNameTypes := WithBit(subtrees.presentNameTypes, nameType);
  }

  /** Stores a name in the list that its tag selects; the type bit is set with it. */
  method AddByTag(tag: nat, value: Input, trailing: bool, ipAddressType: IPAddressType, subtrees: GeneralNames, errors: CertErrors)
    returns (ok: bool)
    modifies subtrees, errors
    ensures Stored(ReadValue(tag, value, trailing, ipAddressType), ok, old(subtrees.Lists()), subtrees.Lists(), old(errors.nodes), errors.nodes)
  {
    hide ReadElement, IsAscii, ReadIP, WithBit;
    if tag == CONTEXT_SPECIFIC + 1 || tag == CONTEXT_SPECIFIC + 2 || tag == CONTEXT_SPECIFIC + 6 {
      ok := AddTextName(tag, value, trailing, ipAddressType, subtrees, errors);
    } else if tag == CONTEXT_SPECIFIC + CONSTRUCTED + 4 {
      var nameParser := new Parser(value);
      var okName, nameValue := nameParser.ReadTag(SEQUENCE);
      if !okName || trailing {
        return false;
      }
      subtrees.directoryNames := subtrees.directoryNames + [nameValue];
      subtrees.presentNameTypes := WithBit(subtrees.presentNameTypes, DIRECTORY_NAME);
      ok := true;
    } else if tag == CONTEXT_SPECIFIC + 7 {
      ok := ParseIPAddress(value, ipAddressType, subtrees, errors);
      if !ok { return false; }
      subtrees.presentNameTypes := WithBit(subtrees.presentNameTypes, IP_ADDRESS);
    } else {
      ok := AddOctets(tag, value, trailing, ipAddressType, subtrees);
      if !ok { errors.AddError(UnknownGeneralNameType); }
    }
  }

  /** Reads one GeneralName into the lists; a rejected one leaves them as they were. */
  method ParseGeneralName(input: Input, ipAddressType: IPAddressType, subtrees: GeneralNames, errors: CertErrors) returns (ok: bool)
    modifies subtrees, errors
    ensures Stored(Read(input, ipAddressType), ok, old(subtrees.Lists()), subtrees.Lists(), old(errors.nodes), errors.nodes)
    ensures old(BitsAgree(subtrees.Lists())) ==> BitsAgree(subtrees.Lists())
  {
    hide ReadElement, ReadValue, BitsAgree, Added;
    ghost var before := subtrees.Lists();
    if BitsAgree(before) {
      forall n ensures BitsAgree(Added(before, n)) { AddedKeepsBits(before, n); }
    }
    var parser := new Parser(input);
    var tag, value;
    ok, tag, value := parser.ReadTagAndValue();
    if !ok { return false; }
    ok := AddByTag(tag, value, parser.HasMore(), ipAddressType, subtrees, errors);
  }

  /** The names of consecutive encodings, or None when one is rejected. */
  ghost function ReadAll(raws: seq<Input>, ipType: IPAddressType): (r: Option<seq<GeneralName>>)
    ensures r.Some? ==> |r.value| == |raws|
  {
    if raws == [] then Some([])
    else
      var last := Read(raws[|raws| - 1], ipType);
      var front := ReadAll(raws[..|raws| - 1], ipType);
      if front.None? || last.Rejected? then None else Some(front.value + [last.name])
  }

  ghost function AddedAll(g: NameLists, ns: seq<GeneralName>): NameLists {
    if ns == [] then g else Added(AddedAll(g, ns[..|ns| - 1]), ns[|ns| - 1])
  }

  /** Lists built from parsed names always have bits that agree. */
  lemma {:induction false} BuiltListsAgree(g: NameLists, ns: seq<GeneralName>)
    requires BitsAgree(g)
    ensures BitsAgree(AddedAll(g, ns))
  {
    if ns != [] {
      BuiltListsAgree(g, ns[..|ns| - 1]);
      AddedKeepsBits(AddedAll(g, ns[..|ns| - 1]), ns[|ns| - 1]);
    }
  }

  ghost function RawsOf(es: seq<Tlv>): (r: seq<Input>)
    ensures |r| == |es| && forall i :: 0 <= i < |es| ==> r[i] == es[i].raw
  {
    seq(|es|, i requires 0 <= i < |es| => es[i].raw)
  }

  /** The names a GeneralNames value lists: at least one element, all of them acceptable. */
  ghost function NamesOf(value: Input, ipType: IPAddressType): Option<seq<GeneralName>> {
    var es := Elements(value);
    if value == [] || es.None? then None else ReadAll(RawsOf(es.value), ipType)
  }

  lemma {:induction false} ReadAllPrefix(raws: seq<Input>, more: seq<Input>, ipType: IPAddressType)
    requires ReadAll(raws, ipType).None?
    ensures ReadAll(raws + more, ipType).None?
    decreases |more|
  {
    if more == [] {
      assert raws + more == raws;
    } else {
      assert (raws + more)[..|raws + more| - 1] == raws + more[..|more| - 1];
      ReadAllPrefix(raws, more[..|more| - 1], ipType);
    }
  }

  /** CreateFromValue: all names of the sequence, in order; nothing when any of them is unacceptable. */
  method CreateFromValue(value: Input, errors: CertErrors) returns (r: GeneralNames?)
    modifies errors
    ensures r != null ==> fresh(r)
    ensures match NamesOf(value, IP_ADDRESS_ONLY)
            case Some(ns) => r != null && r.Lists() == AddedAll(EMPTY, ns) && errors.nodes == old(errors.nodes)
            case None => r == null && |errors.nodes| > |old(errors.nodes)|
    ensures r != null ==> BitsAgree(r.Lists())
  {
    hide ReadElement, Elements, ReadSoFar, Read, ReadAll, RawsOf, Added, AddedAll, BitsAgree;
    var generalNames := new GeneralNames();
    NoNames();
    var parser := new Parser(value);
    if !parser.HasMore() {
      errors.AddError(GeneralNamesEmpty);
      return null;
    }
    ghost var done: seq<Tlv> := [];
    ghost var names: seq<GeneralName> := [];
    ReadNothing(value);
    while parser.HasMore()
      invariant fresh(parser) && fresh(generalNames)
      invariant ReadSoFar(value, done, parser.rest)
      invariant ReadAll(RawsOf(done), IP_ADDRESS_ONLY) == Some(names)
      invariant generalNames.Lists() == AddedAll(EMPTY, names) && BitsAgree(generalNames.Lists())
      invariant errors.nodes == old(errors.nodes)
      decreases |parser.rest|
    {
      ghost var rest := parser.rest;
      var ok, raw := parser.ReadRawTLV();
      if !ok {
        ReadStuck(value, done, rest);
        errors.AddError(FailedReadingGeneralName);
        return null;
      }
      ghost var t := ReadElement(rest).value;
      ReadOneMore(value, done, rest, t);
      assert parser.rest == rest[|t.raw|..];
      ok := ParseGeneralName(raw, IP_ADDRESS_ONLY, generalNames, errors);
      ReadAllOneMore(done, names, t, IP_ADDRESS_ONLY);
      if !ok {
        if Elements(value).Some? {
          ReadPrefix(value, done + [t], parser.rest);
          ReadAllRejects(done + [t], Elements(value).value, IP_ADDRESS_ONLY);
        }
        errors.AddError(FailedParsingGeneralName);
        return null;
      }
      names := names + [Read(raw, IP_ADDRESS_ONLY).name];
      done := done + [t];
    }
    ReadAllOf(value, done);
    return generalNames;
  }

  lemma NoNames()
    ensures BitsAgree(EMPTY) && AddedAll(EMPTY, []) == EMPTY
    ensures forall ipType :: ReadAll(RawsOf([]), ipType) == Some([])
  {
  }

  lemma ReadAllOneMore(done: seq<Tlv>, names: seq<GeneralName>, t: Tlv, ipType: IPAddressType)
    requires ReadAll(RawsOf(done), ipType) == Some(names)
    ensures ReadAll(RawsOf(done + [t]), ipType) ==
            if Read(t.raw, ipType).Accepted? then Some(names + [Read(t.raw, ipType).name]) else None
    ensures Read(t.raw, ipType).Accepted? ==>
              AddedAll(EMPTY, names + [Read(t.raw, ipType).name]) == Added(AddedAll(EMPTY, names), Read(t.raw, ipType).name)
  {
    hide Read, Added;
    assert RawsOf(done + [t]) == RawsOf(done) + [t.raw];
    hide RawsOf;
    ReadAllSnoc(RawsOf(done), t.raw, ipType);
    if Read(t.raw, ipType).Accepted? { AddedSnoc(names, Read(t.raw, ipType).name); }
    hide ReadAll, AddedAll;
  }

  lemma ReadAllSnoc(raws: seq<Input>, raw: Input, ipType: IPAddressType)
    requires ReadAll(raws, ipType).Some?
    ensures ReadAll(raws + [raw], ipType) ==
            if Read(raw, ipType).Accepted? then Some(ReadAll(raws, ipType).value + [Read(raw, ipType).name]) else None
  {
    hide Read;
    assert (raws + [raw])[..|raws|] == raws;
  }

  lemma AddedSnoc(names: seq<GeneralName>, n: GeneralName)
    ensures AddedAll(EMPTY, names + [n]) == Added(AddedAll(EMPTY, names), n)
  {
    hide Added;
    assert (names + [n])[..|names|] == names;
  }

  /** A name that is rejected rejects every longer list. */
  lemma ReadAllRejects(done: seq<Tlv>, all: seq<Tlv>, ipType: IPAddressType)
    requires done <= all && ReadAll(RawsOf(done), ipType).None?
    ensures ReadAll(RawsOf(all), ipType).None?
  {
    ReadAllPrefix(RawsOf(done), RawsOf(all[|done|..]), ipType);
    assert RawsOf(done) + RawsOf(all[|done|..]) == RawsOf(all);
  }
}
