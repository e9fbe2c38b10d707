/** The addresses of reviewers that scripts/check_references.py accepts, and their
    canonical form. */
module Reviewers {
  import opened Options
  import opened Text
  import opened Decimal

  // What the platform decides: characters that are control or default-ignorable
  // ones, the IDNA encoding of a domain in lower case, what parses as an IP address.
  datatype Unicode = Unicode(prohibited: char -> bool, idna: string -> Option<string>, isIp: string -> bool)

  predicate IsLower(c: char) {
    'a' <= c <= 'z'
  }

  predicate IsAtomChar(c: char) {
    IsDigit(c) || IsLower(c) || 'A' <= c <= 'Z' || c in "!#$%&'*+/=?^_`{|}~-"
  }

  predicate IsAtom(atom: string) {
    atom != "" && forall i | 0 <= i < |atom| :: IsAtomChar(atom[i])
  }

  predicate LocalAccepted(local: string) {
    1 <= |local| <= 64 && forall atom | atom in Split(local, '.') :: IsAtom(atom)
  }

  predicate IsLabelEnd(c: char) {
    IsDigit(c) || IsLower(c)
  }

  // One to 63 lower-case letters, digits and inner hyphens.
  predicate IsLabel(name: string) {
    && 1 <= |name| <= 63 && IsLabelEnd(name[0]) && IsLabelEnd(name[|name| - 1])
    && forall i | 0 <= i < |name| :: IsLabelEnd(name[i]) || name[i] == '-'
  }

  // [0-9]+ or 0x[0-9a-f]*
  predicate IsLegacyNumber(name: string) {
    || AllDigits(name)
    || (|name| >= 2 && name[0] == '0' && name[1] == 'x'
        && forall i | 2 <= i < |name| :: IsDigit(name[i]) || 'a' <= name[i] <= 'f')
  }

  predicate IsReserved(domain: string) {
    var labels := Split(domain, '.');
    || (exists r | r in {"example.com", "example.net", "example.org", "localhost"} ::
          domain == r || EndsWith(domain, "." + r))
    || labels[|labels| - 1] in {"example", "invalid", "local", "localhost", "test"}
  }

  predicate HasLabels(domain: string) {
    forall name | name in Split(domain, '.') :: IsLabel(name)
  }

  // The checks on the encoded domain, once a root dot is dropped.
  predicate DomainAccepted(u: Unicode, domain: string) {
    var labels := Split(domain, '.');
    && !u.isIp(domain)
    && '.' in domain
    && |domain| <= 253
    && HasLabels(domain)
    && !(|labels| <= 4 && forall name | name in labels :: IsLegacyNumber(name))
    && !AllDigits(labels[|labels| - 1])
    && !IsReserved(domain)
  }

  predicate IsAddressLiteral(domain: string) {
    domain != "" && (domain[0] == '[' || domain[|domain| - 1] == ']')
  }

  function DropRootDot(domain: string): string {
    if domain != "" && domain[|domain| - 1] == '.' then domain[..|domain| - 1] else domain
  }

  function DomainOf(u: Unicode, input: string): Option<string> {
    if IsAddressLiteral(input) then None
    else match u.idna(input)
      case None => None
      case Some(encoded) =>
        if EndsWith(encoded, "..") || !DomainAccepted(u, DropRootDot(encoded)) then None
        else Some(DropRootDot(encoded))
  }

  function Address(local: string, domain: string): string {
    local + ['@'] + domain
  }

  predicate Clean(u: Unicode, s: string) {
    forall i | 0 <= i < |s| :: !u.prohibited(s[i])
  }

  // The canonical form of an accepted address; None when it is refused.
  function Normalize(u: Unicode, reviewer: string): Option<string> {
    var parts := Split(reviewer, '@');
    if |reviewer| > 254 || !Clean(u, reviewer) || |parts| != 2 || !LocalAccepted(parts[0]) then None
    else match DomainOf(u, parts[1])
      case None => None
      case Some(domain) =>
        var canonical := Address(parts[0], domain);
        if |canonical| > 254 then None else Some(canonical)
  }

  // What the platform is relied on for: plain domain characters are not
  // prohibited, and IDNA leaves lower-case ASCII domains with valid labels alone.
  ghost predicate PlainDomainsKept(u: Unicode) {
    && (forall c: char :: IsLabelEnd(c) || c == '-' || c == '.' ==> !u.prohibited(c))
    && (forall d: string :: HasLabels(d) ==> u.idna(d) == Some(d))
  }

  lemma {:induction false} CharsOfFields(s: string, c: char)
    ensures forall i | 0 <= i < |s| :: s[i] == c || exists f :: f in Split(s, c) && s[i] in f
    decreases |s|
  {
    if s != "" {
      CharsOfFields(s[1..], c);
      var rest := Split(s[1..], c);
      var fields := Split(s, c);
      forall i | 0 <= i < |s| ensures s[i] == c || exists f :: f in fields && s[i] in f {
        if s[0] == c {
          assert forall f | f in rest :: f in fields;
        } else {
          assert fields[0] == [s[0]] + rest[0];
          assert forall f | f in rest :: f in fields || f == rest[0];
        }
        if i > 0 && s[i] != c {
          assert s[1..][i - 1] == s[i];
          var f :| f in rest && s[i] in f;
          assert s[i] in fields[0] || f in fields;
        } else if i == 0 && s[0] != c {
          assert s[0] in fields[0] && fields[0] in fields;
        }
      }
    }
  }

  // What valid labels say of the characters of the whole domain.
  lemma LabelledChars(domain: string)
    requires HasLabels(domain)
    ensures forall i | 0 <= i < |domain| :: IsLabelEnd(domain[i]) || domain[i] == '-' || domain[i] == '.'
  {
    CharsOfFields(domain, '.');
  }

  lemma {:induction false} LastField(s: string, c: char)
    requires s != "" && s[|s| - 1] == c
    ensures Split(s, c)[|Split(s, c)| - 1] == ""
    decreases |s|
  {
    if |s| > 1 {
      assert s[1..][|s| - 2] == s[|s| - 1];
      LastField(s[1..], c);
      if s[0] != c {
        var rest := Split(s[1..], c);
        if |rest| == 1 {
          CharsOfFields(s[1..], c);
          SplitClean(s[1..], c);
          SplitSingle(s[1..], c);
        }
      }
    }
  }

  lemma {:induction false} SplitSingle(s: string, c: char)
    requires |Split(s, c)| == 1
    ensures Without(s, c)
    decreases |s|
  {
    if s != "" {
      SplitSingle(s[1..], c);
      assert s == [s[0]] + s[1..];
    }
  }

  // A domain with valid labels has no root dot and is no address literal.
  lemma LabelledShape(domain: string)
    requires HasLabels(domain)
    ensures domain != "" && DropRootDot(domain) == domain && !EndsWith(domain, "..") && !IsAddressLiteral(domain)
  {
    LabelledChars(domain);
    var labels := Split(domain, '.');
    assert labels[|labels| - 1] in labels && labels[0] in labels;
    if domain != "" && domain[|domain| - 1] == '.' {
      LastField(domain, '.');
      assert false;
    }
    assert domain != "" ==> domain[|domain| - 1] != '.';
  }

  lemma AddressParts(local: string, domain: string)
    requires Without(local, '@') && Without(domain, '@')
    ensures Split(Address(local, domain), '@') == [local, domain]
  {
    SplitConcat(local, domain, '@');
    SplitWithout(local, '@');
    SplitWithout(domain, '@');
  }

  // Canonicalising a canonical address changes nothing.
  lemma NormalizeIdempotent(u: Unicode, reviewer: string)
    requires PlainDomainsKept(u) && Normalize(u, reviewer).Some?
    ensures Normalize(u, Normalize(u, reviewer).value) == Normalize(u, reviewer)
  {
    var parts := Split(reviewer, '@');
    SplitClean(reviewer, '@');
    assert parts[0] in parts;
    var domain := DomainOf(u, parts[1]).value;
    LabelledChars(domain);
    LabelledShape(domain);
    AddressParts(parts[0], domain);
    assert u.idna(domain) == Some(domain);
    assert DomainOf(u, domain) == Some(domain);
    var canonical := Address(parts[0], domain);
    JoinOfSplit(reviewer, '@');
    assert parts == [parts[0], parts[1]];
    assert reviewer == parts[0] + ['@'] + Join(parts[1..], '@');
    assert forall i | 0 <= i < |parts[0]| :: reviewer[i] == parts[0][i];
    assert reviewer[|parts[0]|] == '@';
    assert Clean(u, canonical);
  }

  // What an address becomes: its local part stays, its domain is encoded and loses
  // a root dot.
  lemma NormalizeMeans(u: Unicode, local: string, input: string, canonical: string)
    requires Without(local, '@') && Without(input, '@')
    requires Normalize(u, Address(local, input)) == Some(canonical)
    ensures exists domain ::
              && canonical == Address(local, domain) && DomainAccepted(u, domain)
              && (u.idna(input) == Some(domain) || u.idna(input) == Some(domain + "."))
  {
    AddressParts(local, input);
    var domain := DomainOf(u, input).value;
    var encoded := u.idna(input).value;
    if encoded != domain {
      assert encoded == encoded[..|encoded| - 1] + [encoded[|encoded| - 1]];
    }
    assert canonical == Address(local, domain);
  }

  // The parts of a canonical address.
  predicate IsCanonical(u: Unicode, a: string, local: string, domain: string) {
    a == Address(local, domain) && |a| <= 254 && Clean(u, a) && LocalAccepted(local) && DomainAccepted(u, domain)
  }

  lemma AtomsHaveNoAt(local: string)
    requires LocalAccepted(local)
    ensures Without(local, '@')
  {
    CharsOfFields(local, '.');
    forall i | 0 <= i < |local| ensures local[i] != '@' {
      if local[i] != '.' {
        var atom :| atom in Split(local, '.') && local[i] in atom;
        assert IsAtom(atom);
      }
    }
  }

  // The addresses that are stored as they are, are exactly these.
  lemma CanonicalIff(u: Unicode, a: string)
    requires PlainDomainsKept(u)
    ensures Normalize(u, a) == Some(a) <==> exists local, domain :: IsCanonical(u, a, local, domain)
  {
    if Normalize(u, a) == Some(a) {
      StoredIsCanonical(u, a);
    }
    if local, domain :| IsCanonical(u, a, local, domain) {
      CanonicalIsStored(u, a, local, domain);
    }
  }

  lemma StoredIsCanonical(u: Unicode, a: string)
    requires Normalize(u, a) == Some(a)
    ensures var parts := Split(a, '@');
            |parts| == 2 && DomainOf(u, parts[1]).Some? && IsCanonical(u, a, parts[0], DomainOf(u, parts[1]).value)
  {
  }

  lemma CanonicalIsStored(u: Unicode, a: string, local: string, domain: string)
    requires PlainDomainsKept(u) && IsCanonical(u, a, local, domain)
    ensures Normalize(u, a) == Some(a)
  {
    AtomsHaveNoAt(local);
    LabelledChars(domain);
    LabelledShape(domain);
    AddressParts(local, domain);
    assert u.idna(domain) == Some(domain);
    assert DomainOf(u, domain) == Some(domain);
  }
}
