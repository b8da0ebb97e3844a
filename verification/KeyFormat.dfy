/**
  The stored form of a BYOK key: hex text, the split at ':', and authenticated encryption
  with a key derived for the workspace.
 */
module KeyFormat {
  import opened Prelude

  type Byte = b: int | 0 <= b < 256
  type Bytes = seq<Byte>

  // ---------------------------------------------------------------- hex

  const DIGITS: string := "0123456789abcdef"

  function HexEncode(bytes: Bytes): (s: string)
    ensures |s| == 2 * |bytes| && ':' !in s
    decreases |bytes|
  {
    if bytes == [] then "" else [DIGITS[bytes[0] / 16], DIGITS[bytes[0] % 16]] + HexEncode(bytes[1..])
  }

  /** The value of a hex digit in either case, or -1. */
  function DigitValue(c: char): (v: int)
    ensures -1 <= v < 16
  {
    if '0' <= c <= '9' then c as int - '0' as int
    else if 'a' <= c <= 'f' then c as int - 'a' as int + 10
    else if 'A' <= c <= 'F' then c as int - 'A' as int + 10
    else -1
  }

  /** Buffer.from(s, 'hex'): stops without an error at the first pair that is not hex. */
  function HexDecode(s: string): Bytes
    decreases |s|
  {
    if |s| < 2 || DigitValue(s[0]) < 0 || DigitValue(s[1]) < 0 then []
    else [16 * DigitValue(s[0]) + DigitValue(s[1])] + HexDecode(s[2..])
  }

  lemma DigitRoundTrip(d: int)
    requires 0 <= d < 16
    ensures DigitValue(DIGITS[d]) == d
  {
  }

  lemma {:induction false} HexRoundTrip(bytes: Bytes)
    ensures HexDecode(HexEncode(bytes)) == bytes
    decreases |bytes|
  {
    if bytes != [] {
      var s := HexEncode(bytes);
      DigitRoundTrip(bytes[0] / 16);
      DigitRoundTrip(bytes[0] % 16);
      assert s[2..] == HexEncode(bytes[1..]);
      HexRoundTrip(bytes[1..]);
    }
  }

  /** Exactly the sixteen digits, in either case, have a value. */
  lemma DigitsExactly(c: char)
    ensures DigitValue(c) >= 0 <==> c in "0123456789abcdefABCDEF"
  {
    assert c in "0123456789abcdefABCDEF" <==>
      '0' <= c <= '9' || 'a' <= c <= 'f' || 'A' <= c <= 'F';
  }

  function UpperCase(s: string): (t: string)
    ensures |t| == |s|
  {
    seq(|s|, i requires 0 <= i < |s| => if 'a' <= s[i] <= 'z' then (s[i] as int - 32) as char else s[i])
  }

  /** Decoding does not tell upper case from lower case. */
  lemma {:induction false} HexIgnoresCase(s: string)
    ensures HexDecode(UpperCase(s)) == HexDecode(s)
    decreases |s|
  {
    if |s| >= 2 {
      HexIgnoresCase(s[2..]);
      assert UpperCase(s)[2..] == UpperCase(s[2..]);
    }
  }

  predicate IsHex(s: string) {
    |s| % 2 == 0 && forall i :: 0 <= i < |s| ==> DigitValue(s[i]) >= 0
  }

  /** Decoding uses all of the text if and only if all of it is hex. */
  lemma {:induction false} HexLength(s: string)
    ensures 2 * |HexDecode(s)| <= |s|
    ensures 2 * |HexDecode(s)| == |s| <==> IsHex(s)
    decreases |s|
  {
    if |s| >= 2 {
      HexLength(s[2..]);
      assert IsHex(s) ==> IsHex(s[2..]);
      if IsHex(s[2..]) && DigitValue(s[0]) >= 0 && DigitValue(s[1]) >= 0 {
        forall i | 0 <= i < |s| ensures DigitValue(s[i]) >= 0 {
          assert i >= 2 ==> s[i] == s[2..][i - 2];
        }
      }
    }
  }

  /** Hex texts of one length name the same bytes exactly when their digits have the same values. */
  lemma {:induction false} HexInjective(s: string, t: string)
    requires IsHex(s) && IsHex(t) && |s| == |t|
    ensures HexDecode(s) == HexDecode(t) <==> forall i :: 0 <= i < |s| ==> DigitValue(s[i]) == DigitValue(t[i])
    decreases |s|
  {
    if s != "" {
      var u, v := s[2..], t[2..];
      HexInjective(u, v);
      assert HexDecode(s)[1..] == HexDecode(u) && HexDecode(t)[1..] == HexDecode(v);
      if HexDecode(s) == HexDecode(t) {
        assert HexDecode(s)[0] == HexDecode(t)[0];
        forall i | 0 <= i < |s| ensures DigitValue(s[i]) == DigitValue(t[i]) {
          assert i >= 2 ==> s[i] == u[i - 2] && t[i] == v[i - 2];
        }
      }
      if forall i :: 0 <= i < |s| ==> DigitValue(s[i]) == DigitValue(t[i]) {
        assert forall i :: 0 <= i < |u| ==> u[i] == s[i + 2] && v[i] == t[i + 2];
      }
    }
  }

  /** Each byte decoded comes from two digits of the text. */
  lemma {:induction false} HexAt(s: string, j: nat)
    requires j < |HexDecode(s)|
    ensures 2 * j + 1 < |s| && DigitValue(s[2 * j]) >= 0 && DigitValue(s[2 * j + 1]) >= 0
    ensures HexDecode(s)[j] == 16 * DigitValue(s[2 * j]) + DigitValue(s[2 * j + 1])
    decreases |s|
  {
    if j > 0 {
      HexAt(s[2..], j - 1);
      assert s[2..][2 * (j - 1)] == s[2 * j] && s[2..][2 * (j - 1) + 1] == s[2 * j + 1];
      assert HexDecode(s)[j] == HexDecode(s[2..])[j - 1];
    }
  }

  /** Decoding ends where fewer than two characters are left, or where one of the next two is no digit. */
  lemma {:induction false} HexStops(s: string)
    ensures var n := |HexDecode(s)|;
      && 2 * n <= |s|
      && (2 * n + 2 <= |s| ==> DigitValue(s[2 * n]) < 0 || DigitValue(s[2 * n + 1]) < 0)
    decreases |s|
  {
    if |s| >= 2 && DigitValue(s[0]) >= 0 && DigitValue(s[1]) >= 0 {
      HexStops(s[2..]);
    }
  }

  /** Byte j is the same in both texts exactly when its two digits have the same values. */
  lemma SameByte(s: string, t: string, j: nat)
    requires j < |HexDecode(s)| && j < |HexDecode(t)|
    ensures 2 * j + 1 < |s| && 2 * j + 1 < |t|
    ensures HexDecode(s)[j] == HexDecode(t)[j] <==>
      DigitValue(s[2 * j]) == DigitValue(t[2 * j]) && DigitValue(s[2 * j + 1]) == DigitValue(t[2 * j + 1])
  {
    HexAt(s, j);
    HexAt(t, j);
  }

  /** The digits before position 2 * n have the same values in both texts. */
  predicate SameDigits(s: string, t: string, n: nat) {
    2 * n <= |s| && 2 * n <= |t| && forall i :: 0 <= i < 2 * n ==> DigitValue(s[i]) == DigitValue(t[i])
  }

  lemma SameDigitsByByte(s: string, t: string, n: nat)
    requires n <= |HexDecode(s)| && n <= |HexDecode(t)|
    ensures HexDecode(s)[..n] == HexDecode(t)[..n] <==> SameDigits(s, t, n)
  {
    HexStops(s);
    HexStops(t);
    if HexDecode(s)[..n] == HexDecode(t)[..n] {
      forall i | 0 <= i < 2 * n ensures DigitValue(s[i]) == DigitValue(t[i]) {
        assert HexDecode(s)[..n][i / 2] == HexDecode(t)[..n][i / 2];
        SameByte(s, t, i / 2);
      }
    }
    if SameDigits(s, t, n) {
      forall j | 0 <= j < n ensures HexDecode(s)[j] == HexDecode(t)[j] {
        SameByte(s, t, j);
      }
    }
  }

  /** Any two texts name the same bytes exactly when decoding stops at one place, and the digits before it agree. */
  lemma SameBytesExactly(s: string, t: string)
    ensures HexDecode(s) == HexDecode(t) <==>
      |HexDecode(s)| == |HexDecode(t)| && SameDigits(s, t, |HexDecode(s)|)
  {
    if |HexDecode(s)| == |HexDecode(t)| {
      SameDigitsByByte(s, t, |HexDecode(s)|);
      assert HexDecode(s)[..|HexDecode(s)|] == HexDecode(s) && HexDecode(t)[..|HexDecode(t)|] == HexDecode(t);
    }
  }

  // ---------------------------------------------------------------- splitting

  /** s.split(sep) for a separator of one character; the result is never empty. */
  function Split(s: string, sep: char): (parts: seq<string>)
    ensures |parts| >= 1
    decreases |s|
  {
    if s == "" then [""]
    else
      var rest := Split(s[1..], sep);
      if s[0] == sep then [""] + rest else [[s[0]] + rest[0]] + rest[1..]
  }

  function Join(parts: seq<string>, sep: char): string
    requires |parts| >= 1
    decreases |parts|
  {
    if |parts| == 1 then parts[0] else parts[0] + [sep] + Join(parts[1..], sep)
  }

  /** Splitting loses nothing, and no part contains the separator. */
  lemma {:induction false} SplitThenJoin(s: string, sep: char)
    ensures Join(Split(s, sep), sep) == s
    ensures forall i :: 0 <= i < |Split(s, sep)| ==> sep !in Split(s, sep)[i]
    decreases |s|
  {
    if s != "" {
      SplitThenJoin(s[1..], sep);
      var rest := Split(s[1..], sep);
      var parts := Split(s, sep);
      if s[0] == sep {
        assert parts[1..] == rest;
        assert Join(parts, sep) == "" + [sep] + s[1..];
      } else {
        assert parts[1..] == rest[1..];
        if |rest| > 1 {
          assert Join(parts, sep) == ([s[0]] + rest[0]) + [sep] + Join(rest[1..], sep);
          assert Join(parts, sep) == [s[0]] + (rest[0] + [sep] + Join(rest[1..], sep));
        }
      }
    }
  }

  /** There is one part more than there are separators. */
  lemma {:induction false} SplitCounts(s: string, sep: char)
    ensures |Split(s, sep)| == 1 + multiset(s)[sep]
    decreases |s|
  {
    if s != "" {
      SplitCounts(s[1..], sep);
      assert s == [s[0]] + s[1..];
    }
  }

  lemma {:induction false} SplitWithoutSeparator(s: string, sep: char)
    requires sep !in s
    ensures Split(s, sep) == [s]
    decreases |s|
  {
    if s != "" {
      SplitWithoutSeparator(s[1..], sep);
      assert [s[0]] + s[1..] == s;
    }
  }

  /** a:b splits into exactly a and b when neither contains the separator, empty parts included. */
  lemma {:induction false} SplitPair(a: string, b: string, sep: char)
    requires sep !in a && sep !in b
    ensures Split(a + [sep] + b, sep) == [a, b]
    decreases |a|
  {
    var s := a + [sep] + b;
    if a == "" {
      assert s[1..] == b;
      SplitWithoutSeparator(b, sep);
    } else {
      assert s[1..] == a[1..] + [sep] + b;
      SplitPair(a[1..], b, sep);
      assert [a[0]] + a[1..] == a;
    }
  }

  // ---------------------------------------------------------------- encryption

  datatype Sealed = Sealed(tag: Bytes, ciphertext: Bytes)

  /** The block size of HMAC with SHA-256. */
  const BLOCK := 64

  /** HKDF uses the salt as an HMAC key, and a key shorter than a block is filled up with zeros. */
  function Padded(salt: Bytes): Bytes {
    salt + seq(if |salt| < BLOCK then BLOCK - |salt| else 0, _ => 0)
  }

  /**
    An authenticated cipher and a key derivation, as functions of their inputs.  `derive`
    takes the master key, the salt and the info string; `open` fails with None.
   */
  datatype Crypto = Crypto(
    seal: (Bytes, Bytes, Bytes) -> Sealed,
    open: (Bytes, Bytes, Sealed) -> Option<Bytes>,
    derive: (Bytes, Bytes, string) -> Bytes)
  {
    /** Opening under the key and nonce that sealed gives the plaintext back. */
    ghost predicate Correct() {
      forall key, iv, p :: open(key, iv, seal(key, iv, p)) == Some(p)
    }

    /**
      The ideal cipher: nothing opens under another key.  The ideal derivation: two inputs
      share a key only where the salts are one HMAC key; salts of up to one block are meant.
     */
    ghost predicate Ideal() {
      && Correct()
      && (forall key, other, iv, p :: other != key ==> open(other, iv, seal(key, iv, p)) == None)
      && (forall m, s, i, m', s', i' :: |s| <= BLOCK && |s'| <= BLOCK ==>
            (derive(m, s, i) == derive(m', s', i') <==> m == m' && Padded(s) == Padded(s') && i == i'))
    }
  }

  /** ENCRYPTION_KEY and ENCRYPTION_HKDF_SALT, as hex text. */
  datatype Config = Config(key: string, salt: string)

  /** The check at start-up: 64 characters each. */
  predicate Accepted(c: Config) {
    |c.key| == 64 && |c.salt| == 64
  }

  /** Settings with which the script and the application start. */
  type Settings = c: Config | Accepted(c) witness Config(seq(64, _ => '0'), seq(64, _ => '0'))

  function WorkspaceKey(k: Crypto, workspace: string, c: Settings): Bytes {
    k.derive(HexDecode(c.key), HexDecode(c.salt), "workspace:" + workspace)
  }

  /** encrypted_key and encryption_iv */
  datatype Stored = Stored(data: string, iv: string)

  datatype Failure = InvalidFormat | NotAuthentic

  function Encrypt(k: Crypto, workspace: string, plaintext: Bytes, iv: Bytes, c: Settings): Stored {
    var sealed := k.seal(WorkspaceKey(k, workspace, c), iv, plaintext);
    Stored(HexEncode(sealed.tag) + ":" + HexEncode(sealed.ciphertext), HexEncode(iv))
  }

  function Decrypt(k: Crypto, workspace: string, stored: Stored, c: Settings): Result<Bytes, Failure> {
    var parts := Split(stored.data, ':');
    if |parts| != 2 then Err(InvalidFormat)
    else
      match k.open(WorkspaceKey(k, workspace, c), HexDecode(stored.iv),
        Sealed(HexDecode(parts[0]), HexDecode(parts[1])))
      case Some(p) => Ok(p)
      case None => Err(NotAuthentic)
  }

  /** The printed tag and ciphertext come back as they were, whatever bytes they are. */
  lemma FormatRoundTrip(sealed: Sealed)
    ensures var parts := Split(HexEncode(sealed.tag) + ":" + HexEncode(sealed.ciphertext), ':');
      |parts| == 2 && Sealed(HexDecode(parts[0]), HexDecode(parts[1])) == sealed
  {
    SplitPair(HexEncode(sealed.tag), HexEncode(sealed.ciphertext), ':');
    HexRoundTrip(sealed.tag);
    HexRoundTrip(sealed.ciphertext);
  }

  /** What is stored, read back part by part: the tag comes first, then the ciphertext, and the nonce stands apart. */
  lemma StoredForm(k: Crypto, workspace: string, plaintext: Bytes, iv: Bytes, c: Settings)
    ensures var sealed := k.seal(WorkspaceKey(k, workspace, c), iv, plaintext);
      var stored := Encrypt(k, workspace, plaintext, iv, c);
      var parts := Split(stored.data, ':');
      && |parts| == 2 && HexDecode(parts[0]) == sealed.tag && HexDecode(parts[1]) == sealed.ciphertext
      && HexDecode(stored.iv) == iv
      && |stored.data| == 2 * |sealed.tag| + 1 + 2 * |sealed.ciphertext|
  {
    FormatRoundTrip(k.seal(WorkspaceKey(k, workspace, c), iv, plaintext));
    HexRoundTrip(iv);
  }

  /** What a reader with other settings sees is what the cipher says about the sealed bytes. */
  lemma DecryptOpens(k: Crypto, workspace: string, plaintext: Bytes, iv: Bytes, c: Settings, d: Settings)
    ensures Decrypt(k, workspace, Encrypt(k, workspace, plaintext, iv, c), d) ==
      match k.open(WorkspaceKey(k, workspace, d), iv, k.seal(WorkspaceKey(k, workspace, c), iv, plaintext))
      case Some(p) => Ok(p)
      case None => Err(NotAuthentic)
  {
    StoredForm(k, workspace, plaintext, iv, c);
  }

  /** A stored text is rejected for its form exactly when it does not have one ':'. */
  lemma InvalidFormatExactly(k: Crypto, workspace: string, stored: Stored, c: Settings)
    ensures Decrypt(k, workspace, stored, c) == Err(InvalidFormat) <==> multiset(stored.data)[':'] != 1
  {
    SplitCounts(stored.data, ':');
  }

  /** Decrypting what was encrypted for the same workspace, key and salt is the identity. */
  lemma DecryptAfterEncrypt(k: Crypto, workspace: string, plaintext: Bytes, iv: Bytes, c: Settings)
    requires k.Correct()
    ensures Decrypt(k, workspace, Encrypt(k, workspace, plaintext, iv, c), c) == Ok(plaintext)
  {
    DecryptOpens(k, workspace, plaintext, iv, c, c);
  }

  /** The settings name the same key bytes, and salt bytes that make the same HMAC key. */
  predicate SameSecrets(c: Settings, d: Settings) {
    HexDecode(c.key) == HexDecode(d.key) && Padded(HexDecode(c.salt)) == Padded(HexDecode(d.salt))
  }

  /**
    Under an ideal cipher and derivation, the settings that decrypt a stored key are exactly
    those with the same secrets.
   */
  lemma DecryptsExactlyUnder(k: Crypto, workspace: string, plaintext: Bytes, iv: Bytes, c: Settings, d: Settings)
    requires k.Ideal()
    ensures Decrypt(k, workspace, Encrypt(k, workspace, plaintext, iv, c), d) ==
      if SameSecrets(c, d) then Ok(plaintext) else Err(NotAuthentic)
  {
    DecryptOpens(k, workspace, plaintext, iv, c, d);
    HexLength(c.salt);
    HexLength(d.salt);
    assert SameSecrets(c, d) <==> WorkspaceKey(k, workspace, c) == WorkspaceKey(k, workspace, d);
  }

  /** No two workspaces can read each other's keys. */
  lemma OtherWorkspaceCannotDecrypt(k: Crypto, workspace: string, other: string, plaintext: Bytes, iv: Bytes,
                                    c: Settings)
    requires k.Ideal() && other != workspace
    ensures Decrypt(k, other, Encrypt(k, workspace, plaintext, iv, c), c) == Err(NotAuthentic)
  {
    StoredForm(k, workspace, plaintext, iv, c);
    HexLength(c.salt);
    assert ("workspace:" + workspace)[10..] == workspace && ("workspace:" + other)[10..] == other;
  }

  /**
    The start-up check asks for 64 hex characters and counts 64 characters: what it accepts
    names 32 bytes if and only if the characters are in fact hex.
   */
  lemma WholeExactlyWhenHex(c: Settings)
    ensures |HexDecode(c.key)| == 32 <==> IsHex(c.key)
    ensures |HexDecode(c.salt)| == 32 <==> IsHex(c.salt)
  {
    HexLength(c.key);
    HexLength(c.salt);
  }

  lemma PaddedAlike(s: Bytes, t: Bytes)
    requires |s| <= |t| <= BLOCK
    ensures Padded(s) == Padded(t) <==> t[..|s|] == s && forall j :: |s| <= j < |t| ==> t[j] == 0
  {
    var p, q := Padded(s), Padded(t);
    assert |p| == |q| == BLOCK;
    assert forall j :: 0 <= j < BLOCK ==>
      p[j] == (if j < |s| then s[j] else 0) && q[j] == (if j < |t| then t[j] else 0);
    if p == q {
      assert forall j :: 0 <= j < |t| ==> t[j] == p[j];
    }
  }

  /** The digits from 2 * n up to 2 * m are all zero. */
  predicate ZerosFrom(t: string, n: nat, m: nat) {
    2 * m <= |t| && forall i :: 2 * n <= i < 2 * m ==> DigitValue(t[i]) == 0
  }

  lemma ZeroBytes(t: string, n: nat)
    requires n <= |HexDecode(t)|
    ensures (forall j :: n <= j < |HexDecode(t)| ==> HexDecode(t)[j] == 0) <==> ZerosFrom(t, n, |HexDecode(t)|)
  {
    var m := |HexDecode(t)|;
    HexStops(t);
    if forall j :: n <= j < m ==> HexDecode(t)[j] == 0 {
      forall i | 2 * n <= i < 2 * m ensures DigitValue(t[i]) == 0 {
        HexAt(t, i / 2);
      }
    }
    if ZerosFrom(t, n, m) {
      forall j | n <= j < m ensures HexDecode(t)[j] == 0 {
        HexAt(t, j);
      }
    }
  }

  /** One salt names no more bytes than the other: the same up to there, and then only zeros. */
  predicate SaltExtends(s: string, t: string) {
    var n, m := |HexDecode(s)|, |HexDecode(t)|;
    n <= m && SameDigits(s, t, n) && ZerosFrom(t, n, m)
  }

  lemma SaltsAlike(s: string, t: string)
    requires |HexDecode(s)| <= |HexDecode(t)| <= BLOCK
    ensures Padded(HexDecode(s)) == Padded(HexDecode(t)) <==> SaltExtends(s, t)
  {
    var n := |HexDecode(s)|;
    PaddedAlike(HexDecode(s), HexDecode(t));
    SameDigitsByByte(s, t, n);
    assert HexDecode(s)[..n] == HexDecode(s);
    ZeroBytes(t, n);
  }

  /**
    Which settings that the start-up check accepts are interchangeable: the keys are decoded
    up to one place and agree before it; the salts agree as far as both are decoded, and
    where the longer one goes on it has zeros.
   */
  lemma InterchangeableExactly(c: Settings, d: Settings)
    ensures SameSecrets(c, d) <==>
      && |HexDecode(c.key)| == |HexDecode(d.key)| && SameDigits(c.key, d.key, |HexDecode(c.key)|)
      && (SaltExtends(c.salt, d.salt) || SaltExtends(d.salt, c.salt))
  {
    SameBytesExactly(c.key, d.key);
    HexLength(c.salt);
    HexLength(d.salt);
    if |HexDecode(c.salt)| <= |HexDecode(d.salt)| {
      SaltsAlike(c.salt, d.salt);
    }
    if |HexDecode(d.salt)| <= |HexDecode(c.salt)| {
      SaltsAlike(d.salt, c.salt);
    }
  }

  /** So the check accepts different keys that are the same, and salts of different bytes that are the same. */
  lemma LengthCheckAdmitsEqualKeys()
    ensures exists c: Settings, d: Settings ::
      c.key != d.key && HexDecode(c.salt) != HexDecode(d.salt) && SameSecrets(c, d)
  {
    var zeros, ys, zs := seq(64, _ => '0'), seq(64, _ => 'y'), seq(64, _ => 'z');
    var c: Settings, d: Settings := Config(ys, zs), Config(zs, zeros);
    assert c.key[0] != d.key[0];
    assert HexDecode(ys) == [] && HexDecode(zs) == [];
    HexLength(zeros);
    assert IsHex(zeros);
    InterchangeableExactly(c, d);
  }

  // ---------------------------------------------------------------- an ideal cipher exists

  /** The bytes of b behind their number in unary. */
  function Frame(b: Bytes): Bytes {
    seq(|b|, _ => 1) + [0] + b
  }

  function Frames(s: string): Bytes
    decreases |s|
  {
    if s == "" then [] else Frame(seq(s[0] as int, _ => 0)) + Frames(s[1..])
  }

  lemma FrameInjective(a: Bytes, b: Bytes, x: Bytes, y: Bytes)
    requires Frame(a) + x == Frame(b) + y
    ensures a == b && x == y
  {
    var s, t := Frame(a) + x, Frame(b) + y;
    assert s[|a|] == 0 && t[|b|] == 0;
    assert forall i :: 0 <= i < |a| ==> s[i] == 1;
    assert forall i :: 0 <= i < |b| ==> t[i] == 1;
    assert |a| == |b|;
    assert s[|a| + 1..] == a + x && t[|b| + 1..] == b + y;
    assert a == (a + x)[..|a|] && b == (b + y)[..|b|];
    assert x == (a + x)[|a|..] && y == (b + y)[|b|..];
  }

  lemma {:induction false} FramesInjective(s: string, t: string)
    requires Frames(s) == Frames(t)
    ensures s == t
    decreases |s|
  {
    if s != "" && t != "" {
      var a: Bytes, b: Bytes := seq(s[0] as int, _ => 0), seq(t[0] as int, _ => 0);
      FrameInjective(a, b, Frames(s[1..]), Frames(t[1..]));
      assert |a| == |b|;
      FramesInjective(s[1..], t[1..]);
      assert s == [s[0]] + s[1..] && t == [t[0]] + t[1..];
    }
  }

  /** Carries its key in the tag. */
  function Transparent(): Crypto {
    Crypto((key, iv, p) => Sealed(key, p),
           (key, iv, s: Sealed) => if s.tag == key then Some(s.ciphertext) else None,
           (m, s, i) => Frame(m) + (Frame(Padded(s)) + Frames(i)))
  }

  lemma IdealCipherExists()
    ensures Transparent().Ideal()
  {
    var k := Transparent();
    forall m, s, i, m', s', i' | k.derive(m, s, i) == k.derive(m', s', i')
      ensures m == m' && Padded(s) == Padded(s') && i == i'
    {
      FrameInjective(m, m', Frame(Padded(s)) + Frames(i), Frame(Padded(s')) + Frames(i'));
      FrameInjective(Padded(s), Padded(s'), Frames(i), Frames(i'));
      FramesInjective(i, i');
    }
  }
}
