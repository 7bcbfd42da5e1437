/** The lock screen: first-launch setup of the master password, unlocking,
    the panic (decoy) path, and the biometric callbacks. */
module Auth {
  import opened Wrappers
  import opened Binary
  import Text
  import Utf8
  import opened StealthManager
  import opened Database

  /** The messages the lock screen shows. */
  datatype AuthError =
    | EmptyPassword            // "Password cannot be empty"
    | TooShort                 // "Password must be at least 4 characters"
    | WrongPassword            // the `auth_failed` string resource
    | BiometricError(message: string)

  /** Where the activity is: still locked, or finished into the vault or
      into the decoy screen. */
  datatype Screen = Locked | Vault | Decoy

  /** What one press of the unlock button decides. */
  datatype UnlockOutcome =
    | Rejected(reason: AuthError)
    | Unlocked(newPassword: Option<string>)   // the password to store, in setup mode
    | Panic(wipe: bool)

  /** `isSetupMode`: first launch, or no master password stored. */
  function SetupMode(prefs: Prefs): (r: bool)
    requires WellTyped(prefs)
    ensures !r ==> HasUserPassword(prefs)
  {
    IsFirstLaunch(prefs) || !HasUserPassword(prefs)
  }

  /** Once a master password is stored, the screen starts in returning mode. */
  lemma SetupModeAfterStore(prefs: Prefs, digest: Bytes -> Bytes, password: string)
    requires WellTyped(prefs)
    ensures var p := prefs[KEY_USER_PASSWORD_HASH := StringValue(HashPassword(digest, password))]
                          [KEY_FIRST_LAUNCH := BooleanValue(false)];
            WellTyped(p) && !SetupMode(p)
  {
  }

  /** A fresh install starts in setup mode. */
  lemma FreshInstallIsSetup()
    ensures SetupMode(map[])
  {
  }

  /** The decision procedure of `handlePasswordUnlock` (and `handlePanicMode`)
      on the text in the password field. */
  function DecideUnlock(setupMode: bool, prefs: Prefs, digest: Bytes -> Bytes, typed: string): (r: UnlockOutcome)
    requires WellTyped(prefs)
    ensures r.Panic? ==> !setupMode && HasPanicPassword(prefs)
    ensures r.Unlocked? ==> (r.newPassword.Some? <==> setupMode)
    ensures r.Unlocked? && !setupMode ==> HasUserPassword(prefs)
  {
    var password := Text.Trim(typed);
    if password == [] then Rejected(EmptyPassword)
    else if setupMode then
      if Text.Utf16Length(password) < 4 then Rejected(TooShort) else Unlocked(Some(password))
    else if IsPanicPassword(prefs, digest, password) then Panic(IsAutoDestructEnabled(prefs))
    else if VerifyUserPassword(prefs, digest, password) then Unlocked(None)
    else Rejected(WrongPassword)
  }

  /** A blank field is always rejected, in either mode. */
  lemma BlankIsRejected(setupMode: bool, prefs: Prefs, digest: Bytes -> Bytes, typed: string)
    requires WellTyped(prefs)
    ensures DecideUnlock(setupMode, prefs, digest, typed) == Rejected(EmptyPassword) <==> Text.IsBlank(typed)
  {
  }

  /** In setup mode the outcome depends only on the trimmed text: rejected
      when blank or shorter than 4 UTF-16 units, otherwise stored trimmed. */
  lemma SetupOutcome(prefs: Prefs, digest: Bytes -> Bytes, typed: string)
    requires WellTyped(prefs)
    ensures var o := DecideUnlock(true, prefs, digest, typed);
            && !o.Panic?
            && (o.Unlocked? <==> !Text.IsBlank(typed) && Text.Utf16Length(Text.Trim(typed)) >= 4)
            && (o.Unlocked? ==> o.newPassword == Some(Text.Trim(typed)) && |Text.Trim(typed)| >= 2)
  {
  }

  /** In returning mode: the panic check comes first, so a panic password
      never opens the vault even when it is also the master password; the
      vault opens exactly for a non-panic input that verifies; nothing is
      ever stored. */
  lemma ReturningOutcome(prefs: Prefs, digest: Bytes -> Bytes, typed: string)
    requires WellTyped(prefs)
    ensures var o := DecideUnlock(false, prefs, digest, typed);
            var password := Text.Trim(typed);
            && (o.Panic? <==> password != [] && IsPanicPassword(prefs, digest, password))
            && (o.Panic? ==> o.wipe == IsAutoDestructEnabled(prefs))
            && (o.Unlocked? <==>
                  (password != [] && !IsPanicPassword(prefs, digest, password)
                   && VerifyUserPassword(prefs, digest, password)))
            && (o.Unlocked? ==> o.newPassword == None)
            && (o == Rejected(WrongPassword) <==>
                  (password != [] && !IsPanicPassword(prefs, digest, password)
                   && !VerifyUserPassword(prefs, digest, password)))
  {
  }

  /** Without a panic password the decoy is unreachable, and without a
      master password the vault cannot be opened by typing in returning mode. */
  lemma NothingStoredNothingMatches(prefs: Prefs, digest: Bytes -> Bytes, typed: string)
    requires WellTyped(prefs)
    ensures !HasPanicPassword(prefs) ==> !DecideUnlock(false, prefs, digest, typed).Panic?
    ensures !HasUserPassword(prefs) ==> !DecideUnlock(false, prefs, digest, typed).Unlocked?
  {
  }

  /** The password chosen at setup, typed again later with any surrounding
      whitespace, opens the vault, unless it is also the panic password. */
  lemma SetupThenUnlock(prefs: Prefs, digest: Bytes -> Bytes, typed: string, again: string)
    requires WellTyped(prefs)
    requires DecideUnlock(true, prefs, digest, typed).Unlocked?
    requires Text.Trim(again) == Text.Trim(typed)
    ensures var p := prefs[KEY_USER_PASSWORD_HASH := StringValue(HashPassword(digest, Text.Trim(typed)))]
                          [KEY_FIRST_LAUNCH := BooleanValue(false)];
            && WellTyped(p)
            && DecideUnlock(false, p, digest, again) ==
                 (if IsPanicPassword(prefs, digest, Text.Trim(typed)) then Panic(IsAutoDestructEnabled(prefs))
                  else Unlocked(None))
  {
    var p := prefs[KEY_USER_PASSWORD_HASH := StringValue(HashPassword(digest, Text.Trim(typed)))]
                  [KEY_FIRST_LAUNCH := BooleanValue(false)];
    MatchesAfterStore(prefs, KEY_USER_PASSWORD_HASH, digest, Text.Trim(typed), Text.Trim(typed));
    assert GetString(p, KEY_PANIC_HASH) == GetString(prefs, KEY_PANIC_HASH);
    assert GetBoolean(p, KEY_AUTO_DESTRUCT, false) == GetBoolean(prefs, KEY_AUTO_DESTRUCT, false);
  }

  /** `AuthActivity`, with the credential store and the record table it
      reaches through `StealthManager` and `SafeVaultDatabase`. */
  class AuthActivity {
    const stealth: StealthManager
    const dao: VaultDao
    var isSetupMode: bool
    var passwordText: string
    var error: Option<AuthError>
    var screen: Screen
    var dataWipedToast: bool

    ghost predicate Valid()
      reads stealth, dao
    {
      stealth.Valid() && dao.Valid()
    }

    constructor (stealth: StealthManager, dao: VaultDao)
      requires stealth.Valid() && dao.Valid()
      ensures Valid() && this.stealth == stealth && this.dao == dao
      ensures !isSetupMode && passwordText == [] && error == None && screen == Locked && !dataWipedToast
    {
      this.stealth := stealth;
      this.dao := dao;
      isSetupMode := false;
      passwordText := [];
      error := None;
      screen := Locked;
      dataWipedToast := false;
    }

    /** `onCreate`: derives the mode from the store. */
    method OnCreate()
      requires Valid()
      modifies this
      ensures Valid()
      ensures isSetupMode == SetupMode(stealth.prefs)
      ensures passwordText == old(passwordText) && error == old(error) && screen == old(screen)
      ensures dataWipedToast == old(dataWipedToast)
    {
      isSetupMode := IsFirstLaunch(stealth.prefs) || !HasUserPassword(stealth.prefs);
    }

    /** The password field's text changes. */
    method TypePassword(text: string)
      modifies this
      ensures passwordText == text
      ensures isSetupMode == old(isSetupMode) && error == old(error) && screen == old(screen)
      ensures dataWipedToast == old(dataWipedToast)
    {
      passwordText := text;
    }

    /** `handlePanicMode`: wipes every record when auto-destruct is on, then
        goes to the decoy screen either way. */
    method HandlePanicMode()
      requires Valid()
      modifies this, dao
      ensures Valid()
      ensures screen == Decoy
      ensures IsAutoDestructEnabled(stealth.prefs) ==> dao.rows == map[] && dataWipedToast
      ensures !IsAutoDestructEnabled(stealth.prefs) ==>
                dao.rows == old(dao.rows) && dataWipedToast == old(dataWipedToast)
      ensures dao.sequence == old(dao.sequence)
      ensures isSetupMode == old(isSetupMode) && passwordText == old(passwordText) && error == old(error)
    {
      if IsAutoDestructEnabled(stealth.prefs) {
        dao.DeleteAllItems();
        dataWipedToast := true;
      }
      screen := Decoy;
    }

    /** `handlePasswordUnlock`: carries out `DecideUnlock` on the field's text. */
    method HandlePasswordUnlock()
      requires Valid()
      modifies this, stealth, dao
      ensures Valid()
      ensures var o := DecideUnlock(old(isSetupMode), old(stealth.prefs), stealth.digest, old(passwordText));
              && (o.Rejected? ==> && error == Some(o.reason) && screen == old(screen)
                                  && stealth.prefs == old(stealth.prefs) && dao.rows == old(dao.rows))
              && (o == Rejected(WrongPassword) ==> passwordText == [])
              && (o != Rejected(WrongPassword) ==> passwordText == old(passwordText))
              && (o.Unlocked? ==> && screen == Vault && error == old(error) && dao.rows == old(dao.rows))
              && (o == Unlocked(None) ==> stealth.prefs == old(stealth.prefs))
              && (o.Unlocked? && o.newPassword.Some? ==>
                    stealth.prefs == old(stealth.prefs)[KEY_USER_PASSWORD_HASH := StringValue(HashPassword(stealth.digest, o.newPassword.value))]
                                                       [KEY_FIRST_LAUNCH := BooleanValue(false)])
              && (o.Panic? ==> && screen == Decoy && error == old(error) && stealth.prefs == old(stealth.prefs)
                               && dao.rows == (if o.wipe then map[] else old(dao.rows)))
              && (o.Panic? && o.wipe ==> dataWipedToast)
              && (!(o.Panic? && o.wipe) ==> dataWipedToast == old(dataWipedToast))
      ensures isSetupMode == old(isSetupMode) && dao.sequence == old(dao.sequence)
    {
      var password := Text.Trim(passwordText);
      if password == [] {
        error := Some(EmptyPassword);
        return;
      }
      if isSetupMode {
        if Text.Utf16Length(password) < 4 {
          error := Some(TooShort);
          return;
        }
        stealth.SetUserPassword(password);
        screen := Vault;
        return;
      }
      if IsPanicPassword(stealth.prefs, stealth.digest, password) {
        HandlePanicMode();
        return;
      }
      if VerifyUserPassword(stealth.prefs, stealth.digest, password) {
        screen := Vault;
      } else {
        error := Some(WrongPassword);
        passwordText := [];
      }
    }

    /** The biometric prompt's `onSuccess`: straight into the vault, no password. */
    method OnBiometricSuccess()
      modifies this
      ensures screen == Vault
      ensures isSetupMode == old(isSetupMode) && passwordText == old(passwordText) && error == old(error)
      ensures dataWipedToast == old(dataWipedToast)
    {
      screen := Vault;
    }

    /** The biometric prompt's `onFailure`: only shows the message. */
    method OnBiometricFailure(message: string)
      modifies this
      ensures error == Some(BiometricError(message))
      ensures screen == old(screen) && isSetupMode == old(isSetupMode) && passwordText == old(passwordText)
      ensures dataWipedToast == old(dataWipedToast)
    {
      error := Some(BiometricError(message));
    }
  }
}
