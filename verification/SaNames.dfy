/** The registry names a record holds for the identifiers on the wire
    (core/ike_parser/_transforms.py). */
module SaNames {
  import AuditChain
  import opened SaAnalysis
  import opened Wrappers

  /** What the record holds for a field the handshake never showed. */
  const UNKNOWN := "unknown"

  /** A key length left out, or zero, reads as 128. */
  function KeyBits(keyLength: Option<nat>): string {
    AuditChain.Decimal(if keyLength.Some? && keyLength.value != 0 then keyLength.value else 128)
  }

  function CipherName(c: (nat, Option<nat>)): string {
    var id := c.0;
    if id == 2 then "DES-CBC"
    else if id == 3 then "3DES-CBC"
    else if id == 11 then "NULL"
    else if id == 12 then "AES-" + KeyBits(c.1) + "-CBC"
    else if id == 13 then "AES-" + KeyBits(c.1) + "-CTR"
    else if id in {18, 19, 20} then "AES-" + KeyBits(c.1) + "-GCM"
    else if id in {14, 15, 16} then "AES-" + KeyBits(c.1) + "-CCM"
    else if id == 23 then "CAMELLIA-" + KeyBits(c.1) + "-CBC"
    else if id == 28 then "CHACHA20-POLY1305"
    else "ENCR_" + AuditChain.Decimal(id)
  }

  function IntegrityName(i: Integrity): string {
    if i.Implicit? then "implicit"
    else if i.id == 1 then "HMAC-MD5"
    else if i.id == 2 then "HMAC-SHA1"
    else if i.id == 5 then "AES-XCBC"
    else if i.id == 12 then "HMAC-SHA256"
    else if i.id == 13 then "HMAC-SHA384"
    else if i.id == 14 then "HMAC-SHA512"
    else "INTEG_" + AuditChain.Decimal(i.id)
  }

  function PrfName(id: nat): string {
    if id == 1 then "PRF_HMAC_MD5"
    else if id == 2 then "PRF_HMAC_SHA1"
    else if id == 4 then "PRF_AES128_XCBC"
    else if id == 5 then "PRF_HMAC_SHA2_256"
    else if id == 6 then "PRF_HMAC_SHA2_384"
    else if id == 7 then "PRF_HMAC_SHA2_512"
    else "PRF_" + AuditChain.Decimal(id)
  }

  /** A group's family and the number printed after it. */
  function GroupParts(id: nat): (string, nat) {
    match id
    case 1 => ("MODP", 768)
    case 2 => ("MODP", 1024)
    case 5 => ("MODP", 1536)
    case 14 => ("MODP", 2048)
    case 15 => ("MODP", 3072)
    case 16 => ("MODP", 4096)
    case 17 => ("MODP", 6144)
    case 18 => ("MODP", 8192)
    case 19 => ("ECP", 256)
    case 20 => ("ECP", 384)
    case 21 => ("ECP", 521)
    case 31 => ("Curve", 25519)
    case 32 => ("Curve", 448)
    case 35 => ("ML-KEM-", 512)
    case 36 => ("ML-KEM-", 768)
    case 37 => ("ML-KEM-", 1024)
    case _ => ("DH_GROUP_", id)
  }

  /** Group zero has no name. */
  function GroupName(id: nat): Option<string> {
    if id == 0 then None else Some(GroupParts(id).0 + AuditChain.Decimal(GroupParts(id).1))
  }

  function Recorded<T>(v: Option<T>, name: T -> string): string {
    if v.Some? then name(v.value) else UNKNOWN
  }

  function RecordedGroup(v: Option<nat>): Option<string> {
    if v.Some? then GroupName(v.value) else Some(UNKNOWN)
  }

  // ---------------------------------------------------------------------------
  // No name is "unknown", and group names determine their groups
  // ---------------------------------------------------------------------------

  ghost predicate Known<T(!new)>(name: T -> string) {
    forall x :: name(x) != UNKNOWN
  }

  lemma CipherNamesAreKnown()
    ensures Known(CipherName)
  {
    forall c ensures CipherName(c) != UNKNOWN {
      assert CipherName(c)[0] in {'D', '3', 'N', 'A', 'C', 'E'};
    }
  }

  lemma IntegrityNamesAreKnown()
    ensures Known(IntegrityName)
  {
    forall i ensures IntegrityName(i) != UNKNOWN {
      assert IntegrityName(i)[0] in {'i', 'H', 'A', 'I'};
    }
  }

  lemma PrfNamesAreKnown()
    ensures Known(PrfName)
  {
    forall id ensures PrfName(id) != UNKNOWN {
      assert PrfName(id)[0] == 'P';
    }
  }

  lemma FamilyShows(id: nat)
    ensures var f := GroupParts(id).0;
            f in {"MODP", "ECP", "Curve", "ML-KEM-", "DH_GROUP_"}
  {
  }

  lemma GroupPartsInjective(a: nat, b: nat)
    requires GroupParts(a) == GroupParts(b)
    ensures a == b
  {
  }

  lemma SameFamily(f: string, g: string, r: string, t: string)
    requires f in {"MODP", "ECP", "Curve", "ML-KEM-", "DH_GROUP_"}
    requires g in {"MODP", "ECP", "Curve", "ML-KEM-", "DH_GROUP_"}
    requires f + r == g + t
    ensures f == g && r == t
  {
    assert (f + r)[0] == f[0] && (g + t)[0] == g[0] && (f + r)[1] == f[1] && (g + t)[1] == g[1];
    assert f == g;
    assert (f + r)[|f|..] == r && (g + t)[|f|..] == t;
  }

  lemma GroupNameInjective(a: nat, b: nat)
    requires GroupName(a) == GroupName(b)
    ensures a == b
  {
    if a != 0 && b != 0 {
      var f, g := GroupParts(a), GroupParts(b);
      FamilyShows(a);
      FamilyShows(b);
      SameFamily(f.0, g.0, AuditChain.Decimal(f.1), AuditChain.Decimal(g.1));
      AuditChain.DecimalInjective(f.1, g.1);
      GroupPartsInjective(a, b);
    }
  }

  lemma GroupNamesAreKnown(id: nat)
    ensures GroupName(id) != Some(UNKNOWN)
  {
    if id != 0 {
      FamilyShows(id);
      assert GroupName(id).value[0] == GroupParts(id).0[0];
    }
  }

  // ---------------------------------------------------------------------------
  // The registry's names
  // ---------------------------------------------------------------------------

  lemma SizedCiphers(keyLength: Option<nat>)
    ensures var bits := AuditChain.Decimal(if keyLength in {None, Some(0)} then 128 else keyLength.value);
            && CipherName((12, keyLength)) == "AES-" + bits + "-CBC"
            && CipherName((13, keyLength)) == "AES-" + bits + "-CTR"
            && (forall id :: id in {14, 15, 16} ==> CipherName((id, keyLength)) == "AES-" + bits + "-CCM")
            && (forall id :: id in {18, 19, 20} ==> CipherName((id, keyLength)) == "AES-" + bits + "-GCM")
            && CipherName((23, keyLength)) == "CAMELLIA-" + bits + "-CBC"
  {
  }

  lemma OtherCiphers(id: nat, keyLength: Option<nat>)
    requires id !in {12, 13, 14, 15, 16, 18, 19, 20, 23}
    ensures id == 2 ==> CipherName((id, keyLength)) == "DES-CBC"
    ensures id == 3 ==> CipherName((id, keyLength)) == "3DES-CBC"
    ensures id == 11 ==> CipherName((id, keyLength)) == "NULL"
    ensures id == 28 ==> CipherName((id, keyLength)) == "CHACHA20-POLY1305"
    ensures id !in {2, 3, 11, 28} ==> CipherName((id, keyLength)) == "ENCR_" + AuditChain.Decimal(id)
  {
  }

  /** A group's name is its family and its size, or its number. */
  lemma GroupNames(id: nat)
    ensures GroupName(id) == if id == 0 then None else Some(GroupParts(id).0 + AuditChain.Decimal(GroupParts(id).1))
    ensures id == 1 ==> GroupParts(id) == ("MODP", 768)
    ensures id == 2 ==> GroupParts(id) == ("MODP", 1024)
    ensures id == 5 ==> GroupParts(id) == ("MODP", 1536)
    ensures id == 14 ==> GroupParts(id) == ("MODP", 2048)
    ensures id in {15, 16, 17, 18} ==> GroupParts(id) == ("MODP", [3072, 4096, 6144, 8192][id - 15])
    ensures id in {19, 20, 21} ==> GroupParts(id) == ("ECP", [256, 384, 521][id - 19])
    ensures id == 31 ==> GroupParts(id) == ("Curve", 25519)
    ensures id == 32 ==> GroupParts(id) == ("Curve", 448)
    ensures id in {35, 36, 37} ==> GroupParts(id) == ("ML-KEM-", [512, 768, 1024][id - 35])
    ensures id !in {0, 1, 2, 5, 14, 15, 16, 17, 18, 19, 20, 21, 31, 32, 35, 36, 37} ==>
              GroupParts(id) == ("DH_GROUP_", id)
  {
  }

  lemma IntegrityNames(id: nat)
    ensures IntegrityName(Implicit) == "implicit"
    ensures id == 1 ==> IntegrityName(Integ(id)) == "HMAC-MD5"
    ensures id == 2 ==> IntegrityName(Integ(id)) == "HMAC-SHA1"
    ensures id == 5 ==> IntegrityName(Integ(id)) == "AES-XCBC"
    ensures id == 12 ==> IntegrityName(Integ(id)) == "HMAC-SHA256"
    ensures id == 13 ==> IntegrityName(Integ(id)) == "HMAC-SHA384"
    ensures id == 14 ==> IntegrityName(Integ(id)) == "HMAC-SHA512"
    ensures id !in {1, 2, 5, 12, 13, 14} ==> IntegrityName(Integ(id)) == "INTEG_" + AuditChain.Decimal(id)
  {
  }

  lemma PrfNames(id: nat)
    ensures id == 1 ==> PrfName(id) == "PRF_HMAC_MD5"
    ensures id == 2 ==> PrfName(id) == "PRF_HMAC_SHA1"
    ensures id == 4 ==> PrfName(id) == "PRF_AES128_XCBC"
    ensures id == 5 ==> PrfName(id) == "PRF_HMAC_SHA2_256"
    ensures id == 6 ==> PrfName(id) == "PRF_HMAC_SHA2_384"
    ensures id == 7 ==> PrfName(id) == "PRF_HMAC_SHA2_512"
    ensures id !in {1, 2, 4, 5, 6, 7} ==> PrfName(id) == "PRF_" + AuditChain.Decimal(id)
  {
  }
}
