/** The credential store: four keys in an encrypted key-value namespace,
    holding the user password hash, the panic password hash, the first-launch
    flag and the auto-destruct flag. */
module StealthManager {
  import opened Wrappers
  import opened Binary
  import Utf8

  const KEY_PANIC_HASH: string := "panic_password_hash"
  const KEY_AUTO_DESTRUCT: string := "auto_destruct_enabled"
  const KEY_USER_PASSWORD_HASH: string := "user_password_hash"
  const KEY_FIRST_LAUNCH: string := "first_launch"

  /** A value in the preference map: a string or a boolean. */
  datatype PrefValue = StringValue(s: string) | BooleanValue(b: bool)

  type Prefs = map<string, PrefValue>

  /** The two hash keys hold strings and the two flags hold booleans, as the
      setters write them; reading a key with the other type would throw. */
  predicate WellTyped(prefs: Prefs) {
    && (KEY_USER_PASSWORD_HASH in prefs ==> prefs[KEY_USER_PASSWORD_HASH].StringValue?)
    && (KEY_PANIC_HASH in prefs ==> prefs[KEY_PANIC_HASH].StringValue?)
    && (KEY_FIRST_LAUNCH in prefs ==> prefs[KEY_FIRST_LAUNCH].BooleanValue?)
    && (KEY_AUTO_DESTRUCT in prefs ==> prefs[KEY_AUTO_DESTRUCT].BooleanValue?)
  }

  /** `getString(key, null)`. */
  function GetString(prefs: Prefs, key: string): (r: Option<string>)
    ensures r.Some? <==> key in prefs && prefs[key].StringValue?
  {
    if key in prefs && prefs[key].StringValue? then Some(prefs[key].s) else None
  }

  /** `getBoolean(key, default)`. */
  function GetBoolean(prefs: Prefs, key: string, default: bool): (r: bool)
    ensures key !in prefs ==> r == default
  {
    if key in prefs && prefs[key].BooleanValue? then prefs[key].b else default
  }

  /** The lowercase hexadecimal digit for a value below 16. */
  function HexDigit(v: int): (c: char)
    requires 0 <= v < 16
    ensures HexValue(c) == Some(v)
  {
    if v < 10 then ('0' as int + v) as char else ('a' as int + v - 10) as char
  }

  /** The value of a lowercase hexadecimal digit. */
  function HexValue(c: char): (r: Option<int>)
    ensures r.Some? ==> 0 <= r.value < 16
  {
    if '0' <= c <= '9' then Some(c as int - '0' as int)
    else if 'a' <= c <= 'f' then Some(c as int - 'a' as int + 10)
    else None
  }

  /** `joinToString("") { "%02x".format(it) }`: two lowercase hex digits per
      byte (a negative JVM byte prints as its value plus 256). */
  function Hex(d: Bytes): (s: string)
    ensures |s| == 2 * |d|
    ensures forall i :: 0 <= i < |s| ==> HexValue(s[i]).Some?
  {
    if d == [] then [] else [HexDigit(d[0] / 16), HexDigit(d[0] % 16)] + Hex(d[1..])
  }

  /** Reads hex text back into bytes. */
  function Unhex(s: string): Option<Bytes>
    decreases |s|
  {
    if |s| < 2 then (if s == [] then Some([]) else None)
    else
      match (HexValue(s[0]), HexValue(s[1]), Unhex(s[2..]))
      case (Some(hi), Some(lo), Some(rest)) => Some([hi * 16 + lo] + rest)
      case _ => None
  }

  lemma {:induction false} UnhexHex(d: Bytes)
    ensures Unhex(Hex(d)) == Some(d)
  {
    if d != [] {
      var s := Hex(d);
      assert s[2..] == Hex(d[1..]);
      UnhexHex(d[1..]);
      assert d == [d[0] / 16 * 16 + d[0] % 16] + d[1..];
    }
  }

  /** Distinct digests have distinct hex renderings. */
  lemma HexInjective(a: Bytes, b: Bytes)
    ensures Hex(a) == Hex(b) <==> a == b
  {
    UnhexHex(a);
    UnhexHex(b);
  }

  /** `hashPassword`: the digest of the UTF-8 bytes, as lowercase hex. No salt. */
  function HashPassword(digest: Bytes -> Bytes, password: string): (h: string)
    ensures |h| == 2 * |digest(Utf8.Encode(password))|
  {
    Hex(digest(Utf8.Encode(password)))
  }

  /** Two passwords hash alike exactly when the digest maps their UTF-8 bytes alike;
      with a 32-byte digest such as SHA-256 every hash is 64 characters long. */
  lemma HashPasswordMatches(digest: Bytes -> Bytes, p: string, q: string)
    ensures HashPassword(digest, p) == HashPassword(digest, q) <==>
            digest(Utf8.Encode(p)) == digest(Utf8.Encode(q))
    ensures p == q ==> HashPassword(digest, p) == HashPassword(digest, q)
    ensures |digest(Utf8.Encode(p))| == 32 ==> |HashPassword(digest, p)| == 64
  {
    HexInjective(digest(Utf8.Encode(p)), digest(Utf8.Encode(q)));
  }

  /** `verifyUserPassword` and `isPanicPassword`: a hash is stored under `key`
      and it equals the hash of `input`; false, not an error, when none is stored. */
  function StoredHashMatches(prefs: Prefs, key: string, digest: Bytes -> Bytes, input: string): (r: bool)
    ensures r ==> GetString(prefs, key).Some?
    ensures r <==> GetString(prefs, key) == Some(HashPassword(digest, input))
  {
    match GetString(prefs, key)
    case None => false
    case Some(stored) => stored == HashPassword(digest, input)
  }

  /** After a hash of `p` is stored under `key`, an input matches exactly when
      it hashes like `p`; in particular `p` itself matches. */
  lemma MatchesAfterStore(prefs: Prefs, key: string, digest: Bytes -> Bytes, p: string, q: string)
    ensures StoredHashMatches(prefs[key := StringValue(HashPassword(digest, p))], key, digest, q)
            <==> digest(Utf8.Encode(q)) == digest(Utf8.Encode(p))
    ensures StoredHashMatches(prefs[key := StringValue(HashPassword(digest, p))], key, digest, p)
  {
    HashPasswordMatches(digest, p, q);
  }

  /** `isFirstLaunch` on a map: true unless the flag was written. */
  function IsFirstLaunch(prefs: Prefs): (r: bool)
    ensures KEY_FIRST_LAUNCH !in prefs ==> r
    ensures KEY_FIRST_LAUNCH in prefs && prefs[KEY_FIRST_LAUNCH] == BooleanValue(false) ==> !r
  {
    GetBoolean(prefs, KEY_FIRST_LAUNCH, true)
  }

  /** `hasUserPassword` on a map. */
  function HasUserPassword(prefs: Prefs): (r: bool)
    requires WellTyped(prefs)
    ensures r <==> KEY_USER_PASSWORD_HASH in prefs
  {
    GetString(prefs, KEY_USER_PASSWORD_HASH).Some?
  }

  /** `hasPanicPassword` on a map. */
  function HasPanicPassword(prefs: Prefs): (r: bool)
    requires WellTyped(prefs)
    ensures r <==> KEY_PANIC_HASH in prefs
  {
    GetString(prefs, KEY_PANIC_HASH).Some?
  }

  /** `verifyUserPassword` on a map. */
  function VerifyUserPassword(prefs: Prefs, digest: Bytes -> Bytes, password: string): (r: bool)
    requires WellTyped(prefs)
    ensures r ==> HasUserPassword(prefs)
  {
    StoredHashMatches(prefs, KEY_USER_PASSWORD_HASH, digest, password)
  }

  /** `isPanicPassword` on a map. */
  function IsPanicPassword(prefs: Prefs, digest: Bytes -> Bytes, input: string): (r: bool)
    requires WellTyped(prefs)
    ensures r ==> HasPanicPassword(prefs)
  {
    StoredHashMatches(prefs, KEY_PANIC_HASH, digest, input)
  }

  /** `isAutoDestructEnabled` on a map: false unless the flag was written. */
  function IsAutoDestructEnabled(prefs: Prefs): (r: bool)
    ensures KEY_AUTO_DESTRUCT !in prefs ==> !r
    ensures KEY_AUTO_DESTRUCT in prefs && prefs[KEY_AUTO_DESTRUCT].BooleanValue? ==> r == prefs[KEY_AUTO_DESTRUCT].b
  {
    GetBoolean(prefs, KEY_AUTO_DESTRUCT, false)
  }

  /** The store object. The preference map is the only state; `digest` is the
      SHA-256 implementation the platform provides. */
  class StealthManager {
    var prefs: Prefs
    const digest: Bytes -> Bytes

    ghost predicate Valid()
      reads this
    {
      WellTyped(prefs)
    }

    /** A fresh install: no key is set, so every getter returns its default. */
    constructor (digest: Bytes -> Bytes)
      ensures Valid() && prefs == map[] && this.digest == digest
      ensures IsFirstLaunch(prefs) && !HasUserPassword(prefs) && !HasPanicPassword(prefs)
      ensures !IsAutoDestructEnabled(prefs)
    {
      prefs := map[];
      this.digest := digest;
    }

    /** `setUserPassword`: stores the hash and clears the first-launch flag;
        afterwards exactly the inputs that hash like `password` verify. */
    method SetUserPassword(password: string)
      requires Valid()
      modifies this
      ensures Valid()
      ensures prefs == old(prefs)[KEY_USER_PASSWORD_HASH := StringValue(HashPassword(digest, password))]
                                 [KEY_FIRST_LAUNCH := BooleanValue(false)]
      ensures !IsFirstLaunch(prefs) && HasUserPassword(prefs)
      ensures forall q :: VerifyUserPassword(prefs, digest, q) <==>
                          digest(Utf8.Encode(q)) == digest(Utf8.Encode(password))
      ensures HasPanicPassword(prefs) == old(HasPanicPassword(prefs))
      ensures IsAutoDestructEnabled(prefs) == old(IsAutoDestructEnabled(prefs))
      ensures forall q :: IsPanicPassword(prefs, digest, q) == old(IsPanicPassword(prefs, digest, q))
    {
      var withHash := prefs[KEY_USER_PASSWORD_HASH := StringValue(HashPassword(digest, password))];
      forall q ensures VerifyUserPassword(withHash[KEY_FIRST_LAUNCH := BooleanValue(false)], digest, q) <==>
                       digest(Utf8.Encode(q)) == digest(Utf8.Encode(password)) {
        MatchesAfterStore(prefs, KEY_USER_PASSWORD_HASH, digest, password, q);
      }
      prefs := withHash[KEY_FIRST_LAUNCH := BooleanValue(false)];
    }

    /** `setPanicPassword`: changes the panic hash key and nothing else. */
    method SetPanicPassword(password: string)
      requires Valid()
      modifies this
      ensures Valid()
      ensures prefs == old(prefs)[KEY_PANIC_HASH := StringValue(HashPassword(digest, password))]
      ensures HasPanicPassword(prefs) && IsPanicPassword(prefs, digest, password)
      ensures forall q :: IsPanicPassword(prefs, digest, q) <==>
                          digest(Utf8.Encode(q)) == digest(Utf8.Encode(password))
      ensures IsFirstLaunch(prefs) == old(IsFirstLaunch(prefs))
      ensures HasUserPassword(prefs) == old(HasUserPassword(prefs))
      ensures IsAutoDestructEnabled(prefs) == old(IsAutoDestructEnabled(prefs))
      ensures forall q :: VerifyUserPassword(prefs, digest, q) == old(VerifyUserPassword(prefs, digest, q))
    {
      forall q ensures IsPanicPassword(prefs[KEY_PANIC_HASH := StringValue(HashPassword(digest, password))], digest, q) <==>
                       digest(Utf8.Encode(q)) == digest(Utf8.Encode(password)) {
        MatchesAfterStore(prefs, KEY_PANIC_HASH, digest, password, q);
      }
      prefs := prefs[KEY_PANIC_HASH := StringValue(HashPassword(digest, password))];
    }

    /** `setAutoDestructEnabled`: the flag reads back as the value written. */
    method SetAutoDestructEnabled(enabled: bool)
      requires Valid()
      modifies this
      ensures Valid()
      ensures prefs == old(prefs)[KEY_AUTO_DESTRUCT := BooleanValue(enabled)]
      ensures IsAutoDestructEnabled(prefs) == enabled
      ensures IsFirstLaunch(prefs) == old(IsFirstLaunch(prefs))
      ensures HasUserPassword(prefs) == old(HasUserPassword(prefs))
      ensures HasPanicPassword(prefs) == old(HasPanicPassword(prefs))
    {
      prefs := prefs[KEY_AUTO_DESTRUCT := BooleanValue(enabled)];
    }
  }
}
