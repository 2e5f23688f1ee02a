/**
 * The credential record codec of `src/app/utils/auth.ts`: a password is
 * stored as `salt:hash`, the hex text of a 16-byte random salt, a colon, and
 * the hex text of the 64-byte scrypt key derived from the password and that
 * salt TEXT. Verification splits the record on `:`, re-derives and compares.
 *
 * scrypt (RFC 7914) is a parameter of type Scrypt: any deterministic function
 * of (password, salt text) to 64 bytes. The random salt is a parameter too.
 */
module Auth {
  import opened Optional
  import opened JsString

  type Byte = b: int | 0 <= b < 256

  const SaltLength: nat := 16
  const KeyLength: nat := 64

  type Salt = s: seq<Byte> | |s| == SaltLength witness seq(16, _ => 0)
  type DerivedKey = k: seq<Byte> | |k| == KeyLength witness seq(64, _ => 0)

  /** `scryptSync(password, salt, 64)` with the salt given as text. */
  type Scrypt = (string, string) -> DerivedKey

  const HexDigits := "0123456789abcdef"

  predicate IsHexDigit(c: char) {
    '0' <= c <= '9' || 'a' <= c <= 'f'
  }

  predicate IsHex(s: string) {
    forall i :: 0 <= i < |s| ==> IsHexDigit(s[i])
  }

  /** `Buffer.toString('hex')`: two lower-case digits per byte, high nibble first (base16, RFC 4648 section 8). */
  function HexEncode(bytes: seq<Byte>): (hex: string)
    ensures |hex| == 2 * |bytes|
    ensures IsHex(hex)
  {
    if bytes == [] then []
    else [HexDigits[bytes[0] / 16], HexDigits[bytes[0] % 16]] + HexEncode(bytes[1..])
  }

  /** Hex digits never include the record's delimiter. */
  lemma HexHasNoColon(s: string)
    requires IsHex(s)
    ensures ':' !in s
  {
  }

  /** A byte is determined by its two hex digits. */
  lemma ByteOfHexDigits(x: Byte, y: Byte)
    requires HexDigits[x / 16] == HexDigits[y / 16] && HexDigits[x % 16] == HexDigits[y % 16]
    ensures x == y
  {
    assert x / 16 == y / 16 && x % 16 == y % 16;
  }

  /** Different byte strings have different hex texts. */
  lemma {:induction false} HexEncodeInjective(a: seq<Byte>, b: seq<Byte>)
    requires HexEncode(a) == HexEncode(b)
    ensures a == b
  {
    if a != [] {
      var ha, hb := HexEncode(a), HexEncode(b);
      assert |b| == |a|;
      assert ha[0] == hb[0] && ha[1] == hb[1];
      ByteOfHexDigits(a[0], b[0]);
      assert ha[2..] == HexEncode(a[1..]) && hb[2..] == HexEncode(b[1..]);
      HexEncodeInjective(a[1..], b[1..]);
      assert a == [a[0]] + a[1..] && b == [b[0]] + b[1..];
    }
  }

  /** The shape of every record `hashPassword` builds: 32 hex digits, `:`, 128 hex digits. */
  predicate IsCredentialRecord(r: string) {
    |r| == 2 * SaltLength + 1 + 2 * KeyLength
    && r[2 * SaltLength] == ':'
    && IsHex(r[..2 * SaltLength])
    && IsHex(r[2 * SaltLength + 1..])
  }

  /** `hashPassword(password)` for the salt `randomBytes(16)` happened to produce. */
  function HashPassword(password: string, salt: Salt, scrypt: Scrypt): (record: string)
    ensures IsCredentialRecord(record)
    ensures record[..2 * SaltLength] == HexEncode(salt)
  {
    var saltHex := HexEncode(salt);
    var record := saltHex + ":" + HexEncode(scrypt(password, saltHex));
    assert record[..2 * SaltLength] == saltHex;
    assert record[2 * SaltLength + 1..] == HexEncode(scrypt(password, saltHex));
    record
  }

  /** The first piece of `hashedPassword.split(':')`, always present. */
  function RecordSalt(hashedPassword: string): string {
    Split(hashedPassword, ':')[0]
  }

  /** The second piece of `hashedPassword.split(':')`, `undefined` when there is no `:`. */
  function RecordHash(hashedPassword: string): Option<string> {
    var parts := Split(hashedPassword, ':');
    if |parts| >= 2 then Some(parts[1]) else None
  }

  /** `storedHash` is defined only for a stored string holding `:`. */
  lemma RecordHashNeedsDelimiter(hashedPassword: string)
    ensures RecordHash(hashedPassword).Some? ==> ':' in hashedPassword
  {
    var parts := Split(hashedPassword, ':');
    if |parts| >= 2 {
      JoinHoldsSeparator(parts, ':');
    }
  }

  /** `verifyPassword(password, hashedPassword)`: `storedHash === hash`, false when `storedHash` is undefined. */
  function VerifyPassword(password: string, hashedPassword: string, scrypt: Scrypt): (ok: bool)
    ensures ok ==> ':' in hashedPassword
    ensures ok ==> |RecordHash(hashedPassword).value| == 2 * KeyLength && IsHex(RecordHash(hashedPassword).value)
  {
    RecordHashNeedsDelimiter(hashedPassword);
    var salt := RecordSalt(hashedPassword);
    RecordHash(hashedPassword) == Some(HexEncode(scrypt(password, salt)))
  }

  /** Splitting a record on `:` gives back exactly its salt text and key text. */
  lemma SplitRecord(saltHex: string, keyHex: string)
    requires IsHex(saltHex) && IsHex(keyHex)
    ensures Split(saltHex + ":" + keyHex, ':') == [saltHex, keyHex]
  {
    HexHasNoColon(saltHex);
    HexHasNoColon(keyHex);
    SplitAtFirst(saltHex, ':', keyHex);
    SplitWithoutSeparator(keyHex, ':');
  }

  /** The hex salt TEXT, not the raw bytes, is what verification feeds back to scrypt. */
  lemma VerifySeesSaltText(password: string, salt: Salt, scrypt: Scrypt)
    ensures RecordSalt(HashPassword(password, salt, scrypt)) == HexEncode(salt)
    ensures RecordHash(HashPassword(password, salt, scrypt))
            == Some(HexEncode(scrypt(password, HexEncode(salt))))
  {
    SplitRecord(HexEncode(salt), HexEncode(scrypt(password, HexEncode(salt))));
  }

  /** Round trip: a record built from a password verifies against that password. */
  lemma VerifyHashRoundTrip(password: string, salt: Salt, scrypt: Scrypt)
    ensures VerifyPassword(password, HashPassword(password, salt, scrypt), scrypt)
  {
    VerifySeesSaltText(password, salt, scrypt);
  }

  /** A candidate is accepted exactly when scrypt gives it the same key under the record's salt. */
  lemma VerifyHashIff(candidate: string, password: string, salt: Salt, scrypt: Scrypt)
    ensures VerifyPassword(candidate, HashPassword(password, salt, scrypt), scrypt)
            <==> scrypt(candidate, HexEncode(salt)) == scrypt(password, HexEncode(salt))
  {
    VerifySeesSaltText(password, salt, scrypt);
    var saltHex := HexEncode(salt);
    if HexEncode(scrypt(candidate, saltHex)) == HexEncode(scrypt(password, saltHex)) {
      HexEncodeInjective(scrypt(candidate, saltHex), scrypt(password, saltHex));
    }
  }

  /** A stored string without `:` leaves `storedHash` undefined, so verification answers false. */
  lemma VerifyRejectsUndelimited(password: string, hashedPassword: string, scrypt: Scrypt)
    requires ':' !in hashedPassword
    ensures RecordHash(hashedPassword) == None
    ensures !VerifyPassword(password, hashedPassword, scrypt)
  {
    SplitWithoutSeparator(hashedPassword, ':');
  }

  /** A record with exactly one `:` is accepted iff its key text is the hex of scrypt over the candidate and its salt text. */
  lemma VerifyParsesRecord(password: string, salt: string, key: string, scrypt: Scrypt)
    requires ':' !in salt && ':' !in key
    ensures VerifyPassword(password, salt + ":" + key, scrypt) <==> key == HexEncode(scrypt(password, salt))
  {
    assert salt + ":" + key == salt + [':'] + key;
    SplitAtFirst(salt, ':', key);
    SplitWithoutSeparator(key, ':');
  }

  /** Whatever follows a second `:` is ignored by verification. */
  lemma VerifyIgnoresTail(password: string, salt: string, key: string, tail: string, scrypt: Scrypt)
    requires ':' !in salt && ':' !in key
    ensures VerifyPassword(password, salt + ":" + key + ":" + tail, scrypt)
            == VerifyPassword(password, salt + ":" + key, scrypt)
  {
    assert salt + ":" + key + ":" + tail == salt + [':'] + (key + [':'] + tail);
    SplitAtFirst(salt, ':', key + [':'] + tail);
    SplitAtFirst(key, ':', tail);
    assert salt + ":" + key == salt + [':'] + key;
    SplitAtFirst(salt, ':', key);
    SplitWithoutSeparator(key, ':');
  }

  /** Records built from different salts differ, whatever the passwords. */
  lemma DistinctSaltsDistinctRecords(p1: string, s1: Salt, p2: string, s2: Salt, scrypt: Scrypt)
    requires s1 != s2
    ensures HashPassword(p1, s1, scrypt) != HashPassword(p2, s2, scrypt)
  {
    if HashPassword(p1, s1, scrypt) == HashPassword(p2, s2, scrypt) {
      HexEncodeInjective(s1, s2);
    }
  }
}
