/** The write-once wallet settings of node/src/persistent_configuration.rs. */
module WalletConfig {
  import opened Basics

  /** The rows of an intact configuration table that concern wallets; None is a row whose value is null. */
  datatype Rows = Rows(seed: Option<string>, publicKey: Option<string>, derivationPath: Option<string>,
                       earningAddress: Option<string>)

  /**
   * Code outside the model: deriving the consuming public key, as hexadecimal text, from an
   * encrypted seed, a password and a path, when that is possible; and recognising an address.
   */
  datatype Crypto = Crypto(derive: (string, string, string) -> Option<string>, isAddress: string -> bool)

  datatype Setting =
    | MnemonicSeed(encrypted: string)
    | DerivationPath(path: string, password: string)
    | PublicKey(hex: string)
    | EarningAddress(address: string)

  function ToLower(s: string): string {
    Map((c: char) => if 'A' <= c <= 'Z' then c + ' ' else c, s)
  }

  /** One setter call; None is a panic, after which the call has changed nothing. */
  function Set(crypto: Crypto, rows: Rows, setting: Setting): Option<Rows> {
    match setting
    case MnemonicSeed(encrypted) => Some(rows.(seed := Some(encrypted)))
    case DerivationPath(path, password) =>
      (match (rows.publicKey, rows.derivationPath)
       case (None, None) => Some(rows.(derivationPath := Some(path)))
       case (Some(key), None) =>
         if rows.seed.Some? && crypto.derive(rows.seed.value, password, path) == Some(key) then Some(rows) else None
       case (None, Some(existing)) => if path == existing then Some(rows) else None
       case (Some(_), Some(_)) => None)
    case PublicKey(hex) =>
      (match (rows.publicKey, rows.derivationPath)
       case (None, None) => Some(rows.(publicKey := Some(hex)))
       case (Some(existing), None) => if hex == existing then Some(rows) else None
       case (None, Some(_)) => None
       case (Some(_), Some(_)) => None)
    case EarningAddress(address) =>
      if !crypto.isAddress(address) then None
      else if rows.earningAddress.None? then Some(rows.(earningAddress := Some(address)))
      else if ToLower(address) == ToLower(rows.earningAddress.value) then Some(rows)
      else None
  }

  /** A getter of the pair panics when both are set. */
  function Get(rows: Rows): Option<(Option<string>, Option<string>)> {
    if rows.publicKey.Some? && rows.derivationPath.Some? then None else Some((rows.publicKey, rows.derivationPath))
  }

  class PersistentConfiguration {
    const crypto: Crypto
    var rows: Rows

    constructor (crypto: Crypto, rows: Rows)
      ensures this.crypto == crypto && this.rows == rows
    {
      this.crypto, this.rows := crypto, rows;
    }

    method SetDerivationPath(path: string, password: string) returns (ok: bool)
      modifies this
      ensures Some(rows) == if ok then Set(crypto, old(rows), DerivationPath(path, password)) else Some(old(rows))
      ensures !ok <==> Set(crypto, old(rows), DerivationPath(path, password)) == None
    {
      match (rows.publicKey, rows.derivationPath)
      case (None, None) =>
        rows := rows.(derivationPath := Some(path));
        ok := true;
      case (Some(key), None) =>
        ok := rows.seed.Some? && crypto.derive(rows.seed.value, password, path) == Some(key);
      case (None, Some(existing)) =>
        ok := path == existing;
      case (Some(_), Some(_)) =>
        ok := false;
    }

    method SetPublicKey(hex: string) returns (ok: bool)
      modifies this
      ensures Some(rows) == if ok then Set(crypto, old(rows), PublicKey(hex)) else Some(old(rows))
      ensures !ok <==> Set(crypto, old(rows), PublicKey(hex)) == None
    {
      match (rows.publicKey, rows.derivationPath)
      case (None, None) =>
        rows := rows.(publicKey := Some(hex));
        ok := true;
      case (Some(existing), None) =>
        ok := hex == existing;
      case _ =>
        ok := false;
    }

    method SetEarningAddress(address: string) returns (ok: bool)
      modifies this
      ensures Some(rows) == if ok then Set(crypto, old(rows), EarningAddress(address)) else Some(old(rows))
      ensures !ok <==> Set(crypto, old(rows), EarningAddress(address)) == None
    {
      if !crypto.isAddress(address) {
        return false;
      }
      if rows.earningAddress.Some? {
        return ToLower(address) == ToLower(rows.earningAddress.value);
      }
      rows := rows.(earningAddress := Some(address));
      ok := true;
    }
  }

  /** Any number of setter calls; those that panic change nothing, and the node does not survive them. */
  function RunSetters(crypto: Crypto, rows: Rows, settings: seq<Setting>): Option<Rows>
    decreases |settings|
  {
    if settings == [] then Some(rows)
    else
      match Set(crypto, rows, settings[0])
      case None => None
      case Some(rows') => RunSetters(crypto, rows', settings[1..])
  }

  ghost predicate Kept<T>(before: Option<T>, after: Option<T>) {
    before.Some? ==> after == before
  }

  /**
   * Over every run of setter calls on a table that starts without both set: the consuming public
   * key and derivation path are never both set, so that no getter panics, and neither of them nor
   * the earning address changes once it is set.
   */
  lemma {:induction false} WriteOnce(crypto: Crypto, rows: Rows, settings: seq<Setting>)
    requires Get(rows).Some? && RunSetters(crypto, rows, settings).Some?
    ensures var after := RunSetters(crypto, rows, settings).value;
            && Get(after).Some?
            && Kept(rows.publicKey, after.publicKey) && Kept(rows.derivationPath, after.derivationPath)
            && Kept(rows.earningAddress, after.earningAddress)
    decreases |settings|
  {
    if settings == [] {
    } else {
      WriteOnce(crypto, Set(crypto, rows, settings[0]).value, settings[1..]);
    }
  }

  /** The same character, or a letter of the English alphabet in its two cases. */
  predicate SameLetter(c: char, d: char) {
    c == d || ('a' <= c <= 'z' && c as int == d as int + 32) || ('a' <= d <= 'z' && d as int == c as int + 32)
  }

  predicate SameButForCase(a: string, b: string) {
    |a| == |b| && forall i :: 0 <= i < |a| ==> SameLetter(a[i], b[i])
  }

  lemma {:induction false} LowerMeans(a: string, b: string)
    ensures ToLower(a) == ToLower(b) <==> SameButForCase(a, b)
  {
    if a == "" || b == "" {
      assert |ToLower(a)| == |a| && |ToLower(b)| == |b|;
    } else {
      LowerMeans(a[1..], b[1..]);
      assert ToLower(a)[1..] == ToLower(a[1..]) && ToLower(b)[1..] == ToLower(b[1..]);
      assert ToLower(a)[0] == ToLower(b)[0] <==> SameLetter(a[0], b[0]);
      assert ToLower(a) == [ToLower(a)[0]] + ToLower(a)[1..] && ToLower(b) == [ToLower(b)[0]] + ToLower(b)[1..];
      hide ToLower;
      assert SameButForCase(a, b) <==> SameLetter(a[0], b[0]) && SameButForCase(a[1..], b[1..]) by {
        assert |a| == |b| ==> forall i :: 0 < i < |a| ==> a[i] == a[1..][i - 1] && b[i] == b[1..][i - 1];
      }
    }
  }

  /** An earning address, once accepted, is the one stored; another is accepted exactly when it differs at most in letter case. */
  lemma {:induction false} EarningAddressAgain(crypto: Crypto, rows: Rows, first: string, later: seq<Setting>, again: string)
    requires Get(rows).Some? && rows.earningAddress == None
    requires RunSetters(crypto, rows, [EarningAddress(first)] + later).Some?
    ensures var after := RunSetters(crypto, rows, [EarningAddress(first)] + later).value;
            && crypto.isAddress(first) && after.earningAddress == Some(first)
            && Set(crypto, after, EarningAddress(again))
               == if crypto.isAddress(again) && SameButForCase(again, first) then Some(after) else None
  {
    LowerMeans(again, first);
    assert ([EarningAddress(first)] + later)[1..] == later;
    WriteOnce(crypto, rows.(earningAddress := Some(first)), later);
  }

  /**
   * A derivation path accepted on a table with neither setting is what the getters give from then on;
   * the same path is accepted again, no other, and no key at all.
   */
  lemma {:induction false} DerivationPathAgain(crypto: Crypto, rows: Rows, path: string, password: string,
                                               later: seq<Setting>, again: string, password': string, hex: string)
    requires Get(rows) == Some((None, None))
    requires RunSetters(crypto, rows, [DerivationPath(path, password)] + later).Some?
    ensures var after := RunSetters(crypto, rows, [DerivationPath(path, password)] + later).value;
            && Get(after) == Some((None, Some(path)))
            && Set(crypto, after, DerivationPath(again, password')) == (if again == path then Some(after) else None)
            && Set(crypto, after, PublicKey(hex)) == None
  {
    assert ([DerivationPath(path, password)] + later)[1..] == later;
    WriteOnce(crypto, rows.(derivationPath := Some(path)), later);
  }

  /**
   * A public key accepted on a table with neither setting is what the getters give from then on; the
   * same key is accepted again, no other, and a path only if it leads to that key.
   */
  lemma {:induction false} PublicKeyAgain(crypto: Crypto, rows: Rows, hex: string, later: seq<Setting>, again: string,
                                          path: string, password: string)
    requires Get(rows) == Some((None, None))
    requires RunSetters(crypto, rows, [PublicKey(hex)] + later).Some?
    ensures var after := RunSetters(crypto, rows, [PublicKey(hex)] + later).value;
            && Get(after) == Some((Some(hex), None))
            && Set(crypto, after, PublicKey(again)) == (if again == hex then Some(after) else None)
            && Set(crypto, after, DerivationPath(path, password))
               == (if after.seed.Some? && crypto.derive(after.seed.value, password, path) == Some(hex)
                   then Some(after) else None)
  {
    assert ([PublicKey(hex)] + later)[1..] == later;
    WriteOnce(crypto, rows.(publicKey := Some(hex)), later);
  }

  /** On a table with neither setting each is accepted. */
  lemma {:induction false} FirstSettingsAreAccepted(crypto: Crypto, rows: Rows, path: string, password: string,
                                                    hex: string, address: string)
    requires Get(rows) == Some((None, None)) && rows.earningAddress == None
    ensures Set(crypto, rows, DerivationPath(path, password)).Some? && Set(crypto, rows, PublicKey(hex)).Some?
    ensures Set(crypto, rows, EarningAddress(address)).Some? <==> crypto.isAddress(address)
  {
  }

  /** The mnemonic seed is the one last set. */
  lemma {:induction false} LastSeed(crypto: Crypto, rows: Rows, encrypted: string, later: seq<Setting>)
    requires RunSetters(crypto, rows, [MnemonicSeed(encrypted)] + later).Some?
    requires forall i :: 0 <= i < |later| ==> !later[i].MnemonicSeed?
    ensures RunSetters(crypto, rows, [MnemonicSeed(encrypted)] + later).value.seed == Some(encrypted)
  {
    assert ([MnemonicSeed(encrypted)] + later)[1..] == later;
    SeedIsKept(crypto, rows.(seed := Some(encrypted)), later);
  }

  lemma {:induction false} SeedIsKept(crypto: Crypto, rows: Rows, settings: seq<Setting>)
    requires RunSetters(crypto, rows, settings).Some?
    requires forall i :: 0 <= i < |settings| ==> !settings[i].MnemonicSeed?
    ensures RunSetters(crypto, rows, settings).value.seed == rows.seed
    decreases |settings|
  {
    if settings == [] {
    } else {
      SeedIsKept(crypto, Set(crypto, rows, settings[0]).value, settings[1..]);
    }
  }
}
