/** Which names and addresses the account store takes: account names, mailbox addresses and the ASCII form of
    their domains. */
module Addresses {
  import opened Text
  import opened Utf8

  const MAX_NAME: nat := 64
  const MAX_ADDRESS: nat := 254
  const MAX_LOCAL_PART: nat := 64
  const MAX_DOMAIN: nat := 253
  const MAX_LABEL: nat := 63

  /** The configured domains, and the conversion of a domain to ASCII (with its confusable check). */
  datatype Net = Net(domains: seq<string>, idna: string -> Option<string>)

  predicate LowerLetterOrDigit(c: char) {
    'a' <= c <= 'z' || '0' <= c <= '9'
  }

  predicate ValidName(name: string) {
    && 0 < |name| <= MAX_NAME && name[0] != '-'
    && forall i :: 0 <= i < |name| ==> LowerLetterOrDigit(name[i]) || name[i] == '-'
  }

  /** The characters of an atom: letters, digits and signs, and what is neither ASCII nor a control. */
  predicate AtomChar(c: char) {
    || LowerLetterOrDigit(c) || 'A' <= c <= 'Z'
    || c in {'!', '#', '$', '%', '&', '\'', '*', '+', '-', '/', '=', '?', '^', '_', '`', '{', '|', '}', '~'}
    || c as int >= 0xA0
  }

  predicate Atom(s: string) {
    s != "" && forall i :: 0 <= i < |s| ==> AtomChar(s[i])
  }

  predicate ValidLocalPart(local: string) {
    && local != "" && |Encode(local)| <= MAX_LOCAL_PART
    && forall i :: 0 <= i < |Split(local, '.')| ==> Atom(Split(local, '.')[i])
  }

  /** Control characters, and the space. */
  predicate ControlOrSpace(c: char) {
    c as int <= 0x20 || 0x7F <= c as int <= 0x9F
  }

  predicate DnsLabel(s: string) {
    && 0 < |s| <= MAX_LABEL && s[0] != '-' && s[|s| - 1] != '-'
    && forall i :: 0 <= i < |s| ==> LowerLetterOrDigit(s[i]) || s[i] == '-'
  }

  predicate DnsShape(s: string) {
    && '.' in s && |Encode(s)| <= MAX_DOMAIN
    && forall i :: 0 <= i < |Split(s, '.')| ==> DnsLabel(Split(s, '.')[i])
  }

  /** The lower-case ASCII form of a domain. */
  function Normalize(net: Net, raw: string): Option<string> {
    if raw == "" || (exists i :: 0 <= i < |raw| && ControlOrSpace(raw[i])) then None
    else
      match net.idna(raw)
      case None => None
      case Some(ascii) => if DnsShape(Lower(ascii)) then Some(Lower(ascii)) else None
  }

  /** Where the last `@` is, or -1. */
  function LastAt(address: string): (r: int)
    ensures -1 <= r < |address|
    ensures r >= 0 ==> address[r] == '@'
    ensures forall i :: r < i < |address| ==> address[i] != '@'
  {
    if address == "" then -1
    else if address[|address| - 1] == '@' then |address| - 1
    else LastAt(address[..|address| - 1])
  }

  /** What follows the last `@`, if there is one. */
  function DomainOf(address: string): Option<string> {
    var at := LastAt(address);
    if at < 0 then None else Some(address[at + 1..])
  }

  /** The domain of an address in ASCII form, if the address is valid. */
  function ParsedDomain(net: Net, address: string): Option<string> {
    if |Encode(address)| > MAX_ADDRESS || LastAt(address) < 0 || !ValidLocalPart(address[..LastAt(address)]) then None
    else Normalize(net, address[LastAt(address) + 1..])
  }

  /** Valid, and in a configured domain. */
  predicate Accepted(net: Net, address: string) {
    && ParsedDomain(net, address).Some?
    && exists i :: 0 <= i < |net.domains| && Lower(net.domains[i]) == Lower(ParsedDomain(net, address).value)
  }

  // ----- lemmas -----

  lemma {:induction false} DomainAfterAt(user: string, d: string)
    requires '@' !in d
    ensures LastAt(user + "@" + d) == |user| && DomainOf(user + "@" + d) == Some(d)
  {
    hide LastAt;
    var address := user + "@" + d;
    assert address[|user|] == '@';
    assert forall i :: |user| < i < |address| ==> address[i] == d[i - |user| - 1] != '@';
    assert LastAt(address) == |user|;
    assert address[|user| + 1..] == d;
  }

  lemma {:induction false} LowerFacts(s: string)
    ensures Lower(Lower(s)) == Lower(s)
    ensures '@' !in s ==> '@' !in Lower(s)
  {
  }

  lemma {:induction false} SplitOff(s: string, sep: char)
    ensures Split(s, sep) ==
            match IndexOf(s, sep) case None => [s] case Some(at) => [s[..at]] + Split(s[at + 1..], sep)
  {
  }

  lemma {:induction false} InPiece(s: string, sep: char, i: nat) returns (k: nat, j: nat)
    requires i < |s| && s[i] != sep
    ensures k < |Split(s, sep)| && j < |Split(s, sep)[k]| && Split(s, sep)[k][j] == s[i]
    decreases |s|
  {
    hide Split, IndexOf;
    SplitOff(s, sep);
    match IndexOf(s, sep)
    case None =>
      k, j := 0, i;
    case Some(at) =>
      if i < at {
        k, j := 0, i;
      } else {
        k, j := InPiece(s[at + 1..], sep, i - at - 1);
        k := k + 1;
      }
  }

  /** A normalized domain is in lower case and holds no `@`. */
  lemma {:induction false} NormalizedPlain(net: Net, raw: string)
    ensures Normalize(net, raw).Some? ==>
              '@' !in Normalize(net, raw).value && Lower(Normalize(net, raw).value) == Normalize(net, raw).value
  {
    hide Lower, Split, Encode;
    if Normalize(net, raw).Some? {
      LowerFacts(net.idna(raw).value);
      var d := Normalize(net, raw).value;
      forall i | 0 <= i < |d|
        ensures d[i] != '@'
      {
        if d[i] != '.' {
          var k, j := InPiece(d, '.', i);
          assert DnsLabel(Split(d, '.')[k]);
        }
      }
    }
  }

  lemma {:induction false} AsciiLength(s: string)
    requires forall i :: 0 <= i < |s| ==> s[i] as int < 0x80
    ensures |Encode(s)| == |s|
  {
    if s != "" {
      AsciiLength(s[1..]);
    }
  }

  /** A number of at most 64 digits is an account name and a local part. */
  lemma {:induction false} NumberNames(n: nat)
    requires |Decimal(n)| <= MAX_NAME
    ensures ValidName(Decimal(n)) && ValidLocalPart(Decimal(n))
    ensures |Encode(Decimal(n))| == |Decimal(n)|
  {
    hide Decimal, Encode;
    DecimalRoundTrip(n);
    AsciiLength(Decimal(n));
    assert '.' !in Decimal(n);
    assert Split(Decimal(n), '.') == [Decimal(n)];
  }

  lemma {:induction false} ParsedJoin(net: Net, local: string, d: string)
    requires '@' !in d && ValidLocalPart(local) && |Encode(local)| + 1 + |Encode(d)| <= MAX_ADDRESS
    ensures ParsedDomain(net, local + "@" + d) == Normalize(net, d)
  {
    hide ValidLocalPart, Encode, Normalize, LastAt;
    var address := local + "@" + d;
    DomainAfterAt(local, d);
    EncodeAppend(local + "@", d);
    EncodeAppend(local, "@");
    AsciiLength("@");
    assert address[..|local|] == local && address[|local| + 1..] == d;
  }

  lemma {:induction false} DecimalLonger(m: nat, n: nat)
    requires m <= n
    ensures |Decimal(m)| <= |Decimal(n)|
  {
    if m >= 10 {
      DecimalLonger(m / 10, n / 10);
    }
  }

  // ----- the rules in plain words -----

  /** ASCII codes of lower-case letters, digits and the hyphen. */
  predicate NameCode(c: char) {
    97 <= c as int <= 122 || 48 <= c as int <= 57 || c as int == 45
  }

  /** Account names: 1 to 64 lower-case letters, digits and hyphens, not led by a hyphen. */
  lemma {:induction false} NameMeaning(name: string)
    ensures ValidName(name) <==>
            1 <= |name| <= 64 && name[0] != '-' && forall i :: 0 <= i < |name| ==> NameCode(name[i])
  {
  }

  /** What an atom must not hold: white space, controls, and the special characters of RFC 5322, which are
      quotation mark, parentheses, comma, dot, colon, semicolon, angle brackets, at sign, brackets and backslash. */
  predicate Special(c: char) {
    || c as int <= 32 || 127 <= c as int <= 159
    || c as int in {34, 40, 41, 44, 46, 58, 59, 60, 62, 64, 91, 92, 93}
  }

  lemma {:induction false} AtomMeaning(c: char)
    ensures AtomChar(c) <==> !Special(c)
  {
  }

  /** Atoms with dots between. */
  predicate DotString(atoms: seq<string>) {
    && atoms != []
    && forall i :: 0 <= i < |atoms| ==>
         atoms[i] != "" && forall j :: 0 <= j < |atoms[i]| ==> !Special(atoms[i][j])
  }

  lemma {:induction false} AtomIs(s: string)
    ensures Atom(s) <==> s != "" && forall j :: 0 <= j < |s| ==> !Special(s[j])
  {
    hide AtomChar, Special;
    forall j | 0 <= j < |s|
      ensures AtomChar(s[j]) <==> !Special(s[j])
    {
      AtomMeaning(s[j]);
    }
  }

  lemma {:induction false} NoDotInside(atoms: seq<string>)
    requires DotString(atoms)
    ensures forall p :: p in atoms ==> '.' !in p
  {
    assert Special('.');
    hide Special;
  }

  /** Local parts: at most 64 bytes, atoms with single dots between (section 4.1.2 of RFC 5321, without quoting). */
  lemma {:induction false} LocalPartMeaning(local: string)
    ensures ValidLocalPart(local) <==>
            |Encode(local)| <= 64 && exists atoms :: DotString(atoms) && local == Join(atoms, '.')
  {
    hide Encode, Atom, Special, Split, Join;
    var parts := Split(local, '.');
    JoinSplit(local, '.');
    forall i | 0 <= i < |parts|
      ensures Atom(parts[i]) <==> parts[i] != "" && forall j :: 0 <= j < |parts[i]| ==> !Special(parts[i][j])
    {
      AtomIs(parts[i]);
    }
    if ValidLocalPart(local) {
      assert DotString(parts);
    }
    if atoms :| DotString(atoms) && local == Join(atoms, '.') {
      NoDotInside(atoms);
      SplitJoin(atoms, '.');
      JoinFilled(atoms);
    }
  }

  lemma {:induction false} JoinFilled(atoms: seq<string>)
    requires atoms != [] && atoms[0] != ""
    ensures Join(atoms, '.') != ""
  {
  }

  /** Labels: 1 to 63 lower-case letters, digits and hyphens, no hyphen at either end. */
  predicate Labels(labels: seq<string>) {
    forall i :: 0 <= i < |labels| ==>
      && 1 <= |labels[i]| <= 63 && labels[i][0] != '-' && labels[i][|labels[i]| - 1] != '-'
      && forall j :: 0 <= j < |labels[i]| ==> NameCode(labels[i][j])
  }

  lemma {:induction false} LabelIs(s: string)
    ensures DnsLabel(s) <==>
            && 1 <= |s| <= 63 && s[0] != '-' && s[|s| - 1] != '-'
            && forall j :: 0 <= j < |s| ==> NameCode(s[j])
  {
  }

  /** Domains in ASCII form: at most 253 bytes, at least two labels with dots between. */
  lemma {:induction false} ShapeMeaning(s: string)
    ensures DnsShape(s) <==>
            |Encode(s)| <= 253 && exists labels :: |labels| >= 2 && Labels(labels) && s == Join(labels, '.')
  {
    hide Encode, DnsLabel, Split, Join, Labels;
    var parts := Split(s, '.');
    JoinSplit(s, '.');
    PartsAreLabels(parts);
    DotSplits(s);
    if labels :| |labels| >= 2 && Labels(labels) && s == Join(labels, '.') {
      PartsAreLabels(labels);
      LabelsNoDot(labels);
      SplitJoin(labels, '.');
    }
  }

  lemma {:induction false} PartsAreLabels(parts: seq<string>)
    ensures Labels(parts) <==> forall i :: 0 <= i < |parts| ==> DnsLabel(parts[i])
  {
    forall i | 0 <= i < |parts|
      ensures DnsLabel(parts[i]) <==>
              && 1 <= |parts[i]| <= 63 && parts[i][0] != '-' && parts[i][|parts[i]| - 1] != '-'
              && forall j :: 0 <= j < |parts[i]| ==> NameCode(parts[i][j])
    {
      LabelIs(parts[i]);
    }
  }

  lemma {:induction false} LabelsNoDot(labels: seq<string>)
    requires forall i :: 0 <= i < |labels| ==> DnsLabel(labels[i])
    ensures forall p :: p in labels ==> '.' !in p
  {
  }

  lemma {:induction false} DotSplits(s: string)
    ensures '.' in s <==> |Split(s, '.')| >= 2
  {
  }

  /** The ASCII form of a domain is what the conversion gives, in lower case, if that is shaped like a domain; a
      domain that is empty or holds a space or a control has none. */
  lemma {:induction false} NormalizeMeaning(net: Net, raw: string, d: string)
    ensures Normalize(net, raw) == Some(d) <==>
            && raw != "" && (forall i :: 0 <= i < |raw| ==> 33 <= raw[i] as int && !(127 <= raw[i] as int <= 159))
            && net.idna(raw).Some? && d == Lower(net.idna(raw).value) && DnsShape(d)
  {
    hide DnsShape, Lower;
  }

  /** An address is that local part and that domain, and `d` the domain's ASCII form. */
  predicate ReadsAs(net: Net, address: string, local: string, domain: string, d: string) {
    address == local + "@" + domain && '@' !in domain && ValidLocalPart(local) && Normalize(net, domain) == Some(d)
  }

  lemma {:induction false} ReadApart(net: Net, address: string, d: string)
    requires ParsedDomain(net, address) == Some(d)
    ensures var at := LastAt(address); at >= 0 && ReadsAs(net, address, address[..at], address[at + 1..], d)
  {
    hide Encode, Normalize, ValidLocalPart;
    var at := LastAt(address);
    assert address == address[..at] + "@" + address[at + 1..];
  }

  lemma {:induction false} ReadTogether(net: Net, address: string, local: string, domain: string, d: string)
    requires ReadsAs(net, address, local, domain, d) && |Encode(address)| <= 254
    ensures ParsedDomain(net, address) == Some(d)
  {
    hide Encode, Normalize, ValidLocalPart, LastAt;
    DomainAfterAt(local, domain);
    assert address[..|local|] == local && address[|local| + 1..] == domain;
  }

  /** An address is read as a local part and a domain around its last `@`, within 254 bytes. */
  lemma {:induction false} ParsedMeaning(net: Net, address: string, d: string)
    ensures ParsedDomain(net, address) == Some(d) <==>
            |Encode(address)| <= 254 && exists local, domain :: ReadsAs(net, address, local, domain, d)
  {
    hide Encode, Normalize, ValidLocalPart, LastAt, ReadsAs;
    if ParsedDomain(net, address) == Some(d) {
      ReadApart(net, address, d);
    }
    if |Encode(address)| <= 254 {
      if local, domain :| ReadsAs(net, address, local, domain, d) {
        ReadTogether(net, address, local, domain, d);
      }
    }
  }

  /** An address is taken exactly when it is read, and one of the configured domains is its own, in any case. */
  lemma {:induction false} AcceptedMeaning(net: Net, address: string)
    ensures Accepted(net, address) <==>
            exists i, d :: 0 <= i < |net.domains| && ParsedDomain(net, address) == Some(d)
                           && SameLetters(net.domains[i], d)
  {
    hide ParsedDomain, Lower, SameLetters;
    if ParsedDomain(net, address).Some? {
      var d := ParsedDomain(net, address).value;
      forall i | 0 <= i < |net.domains|
        ensures Lower(net.domains[i]) == Lower(d) <==> SameLetters(net.domains[i], d)
      {
        LowerMeaning(net.domains[i], d);
      }
    }
  }
}
