/**
  EncryptionService of the application: its own copy of the key derivation and of the stored
  form.  The script must agree with it, since each reads what the other has written.
 */
module EncryptionService {
  import opened Prelude
  import opened KeyFormat

  /** The bytes of ENCRYPTION_KEY and ENCRYPTION_HKDF_SALT, decoded once at start-up. */
  datatype Service = Service(encryptionKey: Bytes, hkdfSalt: Bytes) {
    function DeriveWorkspaceKey(k: Crypto, workspaceId: string): Bytes {
      var info := "workspace:" + workspaceId;
      k.derive(encryptionKey, hkdfSalt, info)
    }

    function EncryptWithWorkspaceKey(k: Crypto, workspaceId: string, plaintext: Bytes, iv: Bytes): (string, string) {
      var workspaceKey := DeriveWorkspaceKey(k, workspaceId);
      var sealed := k.seal(workspaceKey, iv, plaintext);
      (HexEncode(sealed.tag) + ":" + HexEncode(sealed.ciphertext), HexEncode(iv))
    }

    function DecryptWithWorkspaceKey(k: Crypto, workspaceId: string, encryptedData: string,
                                     ivHex: string): Option<Bytes> {
      var workspaceKey := DeriveWorkspaceKey(k, workspaceId);
      var parts := Split(encryptedData, ':');
      if |parts| != 2 then None
      else k.open(workspaceKey, HexDecode(ivHex), Sealed(HexDecode(parts[0]), HexDecode(parts[1])))
    }
  }

  /** The constructor rejects settings that do not have 64 characters each. */
  function Started(config: Config): Option<Service> {
    if |config.key| != 64 || |config.salt| != 64 then None
    else Some(Service(HexDecode(config.key), HexDecode(config.salt)))
  }

  /** The application starts with exactly the settings that the script accepts. */
  lemma StartsWithSettings(config: Config)
    ensures Started(config).Some? <==> Accepted(config)
  {
  }

  /** The service writes what the script writes. */
  lemma WritesAlike(k: Crypto, c: Settings, workspace: string, plaintext: Bytes, iv: Bytes)
    ensures var stored := Encrypt(k, workspace, plaintext, iv, c);
      Started(c).Some? && Started(c).value.EncryptWithWorkspaceKey(k, workspace, plaintext, iv) ==
        (stored.data, stored.iv)
  {
  }

  /** And it reads what the script reads, failures included. */
  lemma ReadsAlike(k: Crypto, c: Settings, workspace: string, stored: Stored)
    ensures Started(c).Some?
    ensures Started(c).value.DecryptWithWorkspaceKey(k, workspace, stored.data, stored.iv) ==
      match Decrypt(k, workspace, stored, c)
      case Ok(plaintext) => Some(plaintext)
      case Err(_) => None
  {
  }

  /**
    A key that the service created under c: the script, rotating from c to d, leaves a text
    that the service reads back once it has started with d, and with no other secrets.
   */
  lemma RotatedKeyIsServed(k: Crypto, c: Settings, d: Settings, e: Settings, workspace: string, plaintext: Bytes,
                           iv: Bytes,
                           nonce: Bytes)
    requires k.Ideal() && Started(c).Some? && Started(e).Some?
    ensures var written := Started(c).value.EncryptWithWorkspaceKey(k, workspace, plaintext, iv);
      var read := Decrypt(k, workspace, Stored(written.0, written.1), c);
      && read == Ok(plaintext)
      && var rewritten := Encrypt(k, workspace, read.value, nonce, d);
      Started(e).value.DecryptWithWorkspaceKey(k, workspace, rewritten.data, rewritten.iv) ==
        if SameSecrets(d, e) then Some(plaintext) else None
  {
    WritesAlike(k, c, workspace, plaintext, iv);
    DecryptAfterEncrypt(k, workspace, plaintext, iv, c);
    var rewritten := Encrypt(k, workspace, plaintext, nonce, d);
    DecryptsExactlyUnder(k, workspace, plaintext, nonce, d, e);
    ReadsAlike(k, e, workspace, rewritten);
  }

  /** The inputs of HKDF that give the key of a workspace: no other info string, key or salt does. */
  lemma WorkspaceKeyExactly(k: Crypto, workspace: string, c: Settings, m: Bytes, s: Bytes, info: string)
    requires k.Ideal() && |s| <= BLOCK
    ensures k.derive(m, s, info) == WorkspaceKey(k, workspace, c) <==>
      m == HexDecode(c.key) && Padded(s) == Padded(HexDecode(c.salt)) && info == "workspace:" + workspace
  {
    HexLength(c.salt);
  }
}
