/** The settings screen: the auto-destruct switch, the panic-password
    dialog and the wipe-all confirmation. */
module Settings {
  import opened Wrappers
  import opened Binary
  import Text
  import Utf8
  import opened StealthManager
  import opened Database
  import opened ViewModel
  import Auth

  /** What the panic-password dialog's positive button decides. */
  datatype PanicDialogResult = RejectBlank | RejectMismatch | SavePanic(password: string)

  /** The toasts the screen shows. */
  datatype SettingsMessage = PanicEmpty | PanicMismatch | PanicSaved | WipeDone

  /** The dialog's `when` as the source writes it: blank first, then
      mismatch, and otherwise the password is stored as typed, untrimmed. */
  function PanicDialogDecisionAsWritten(password: string, confirm: string): (r: PanicDialogResult)
    ensures r == RejectBlank <==> Text.IsBlank(password)
    ensures r == RejectMismatch <==> !Text.IsBlank(password) && password != confirm
    ensures r.SavePanic? ==> r.password == password == confirm
  {
    if Text.IsBlank(password) then RejectBlank
    else if password != confirm then RejectMismatch
    else SavePanic(password)
  }

  /** The lock screen trims what is typed before the panic check, so a panic
      password saved with leading or trailing whitespace (" 1234", say) is
      matched only by a different text whose digest collides with its own. */
  lemma UntrimmedPanicPasswordNeverMatches(prefs: Prefs, digest: Bytes -> Bytes, password: string, typed: string)
    requires WellTyped(prefs)
    requires PanicDialogDecisionAsWritten(password, password) == SavePanic(password)
    requires Text.Trim(password) != password
    ensures var p := prefs[KEY_PANIC_HASH := StringValue(HashPassword(digest, password))];
            && WellTyped(p)
            && (Auth.DecideUnlock(false, p, digest, typed).Panic? ==>
                  && Utf8.Encode(Text.Trim(typed)) != Utf8.Encode(password)
                  && digest(Utf8.Encode(Text.Trim(typed))) == digest(Utf8.Encode(password)))
  {
    var p := prefs[KEY_PANIC_HASH := StringValue(HashPassword(digest, password))];
    var t := Text.Trim(typed);
    Auth.ReturningOutcome(p, digest, typed);
    if Auth.DecideUnlock(false, p, digest, typed).Panic? {
      MatchesAfterStore(prefs, KEY_PANIC_HASH, digest, password, t);
      Text.TrimIdempotent(typed);
      HashCollision(digest, t, password);
    }
  }

  /** Two different texts with the same password hash have different UTF-8
      bytes whose digests collide. */
  lemma HashCollision(digest: Bytes -> Bytes, s: string, t: string)
    requires HashPassword(digest, s) == HashPassword(digest, t) && s != t
    ensures Utf8.Encode(s) != Utf8.Encode(t) && digest(Utf8.Encode(s)) == digest(Utf8.Encode(t))
  {
    HashPasswordMatches(digest, s, t);
    if Utf8.Encode(s) == Utf8.Encode(t) {
      Utf8.EncodeInjective(s, t);
    }
  }

  /** The dialog with the panic password trimmed before it is stored, as the
      lock screen trims what it compares. */
  function PanicDialogDecision(password: string, confirm: string): (r: PanicDialogResult)
    ensures r == RejectBlank <==> Text.IsBlank(password)
    ensures r == RejectMismatch <==> !Text.IsBlank(password) && password != confirm
    ensures r.SavePanic? ==> password == confirm && r.password == Text.Trim(password) != []
  {
    if Text.IsBlank(password) then RejectBlank
    else if password != confirm then RejectMismatch
    else SavePanic(Text.Trim(password))
  }

  /** With the trimmed rule, the panic password just saved, typed at the lock
      screen exactly as it was typed in the dialog, always leads to the decoy. */
  lemma SavedPanicPasswordLeadsToDecoy(prefs: Prefs, digest: Bytes -> Bytes, password: string, confirm: string)
    requires WellTyped(prefs)
    requires PanicDialogDecision(password, confirm).SavePanic?
    ensures var p := prefs[KEY_PANIC_HASH := StringValue(HashPassword(digest, PanicDialogDecision(password, confirm).password))];
            WellTyped(p) && Auth.DecideUnlock(false, p, digest, password) == Auth.Panic(IsAutoDestructEnabled(prefs))
  {
    Text.TrimIdempotent(password);
    var p := prefs[KEY_PANIC_HASH := StringValue(HashPassword(digest, Text.Trim(password)))];
    assert GetBoolean(p, KEY_AUTO_DESTRUCT, false) == GetBoolean(prefs, KEY_AUTO_DESTRUCT, false);
  }

  /** `SettingsFragment`, with the store it reaches through `StealthManager`
      and the shared view model. */
  class SettingsFragment {
    const stealth: StealthManager
    const viewModel: VaultViewModel
    var switchChecked: bool
    var toast: Option<SettingsMessage>

    ghost predicate Valid()
      reads stealth, viewModel, viewModel.dao
    {
      stealth.Valid() && viewModel.Valid()
    }

    constructor (stealth: StealthManager, viewModel: VaultViewModel)
      requires stealth.Valid() && viewModel.Valid()
      ensures Valid() && this.stealth == stealth && this.viewModel == viewModel
      ensures !switchChecked && toast == None
    {
      this.stealth := stealth;
      this.viewModel := viewModel;
      switchChecked := false;
      toast := None;
    }

    /** `onViewCreated`: the switch shows the stored flag; nothing is written. */
    method OnViewCreated()
      requires Valid()
      modifies this
      ensures Valid()
      ensures switchChecked == IsAutoDestructEnabled(stealth.prefs)
      ensures toast == old(toast)
    {
      switchChecked := IsAutoDestructEnabled(stealth.prefs);
    }

    /** The switch's change listener: writes exactly the new value. */
    method OnAutoDestructToggled(isChecked: bool)
      requires Valid()
      modifies this, stealth
      ensures Valid()
      ensures switchChecked == isChecked
      ensures stealth.prefs == old(stealth.prefs)[KEY_AUTO_DESTRUCT := BooleanValue(isChecked)]
      ensures IsAutoDestructEnabled(stealth.prefs) == isChecked
      ensures toast == old(toast)
    {
      switchChecked := isChecked;
      stealth.SetAutoDestructEnabled(isChecked);
    }

    /** The panic dialog's positive button as written: on a blank password
        or a mismatch nothing is stored; otherwise the hash of the password
        as typed, untrimmed, is stored. */
    method OnPanicPasswordSave(password: string, confirm: string)
      requires Valid()
      modifies this, stealth
      ensures Valid()
      ensures switchChecked == old(switchChecked)
      ensures PanicDialogDecisionAsWritten(password, confirm) == RejectBlank ==>
                toast == Some(PanicEmpty) && stealth.prefs == old(stealth.prefs)
      ensures PanicDialogDecisionAsWritten(password, confirm) == RejectMismatch ==>
                toast == Some(PanicMismatch) && stealth.prefs == old(stealth.prefs)
      ensures PanicDialogDecisionAsWritten(password, confirm).SavePanic? ==>
                && toast == Some(PanicSaved)
                && stealth.prefs == old(stealth.prefs)[KEY_PANIC_HASH :=
                     StringValue(HashPassword(stealth.digest, password))]
    {
      match PanicDialogDecisionAsWritten(password, confirm)
      case RejectBlank =>
        toast := Some(PanicEmpty);
      case RejectMismatch =>
        toast := Some(PanicMismatch);
      case SavePanic(p) =>
        stealth.SetPanicPassword(p);
        toast := Some(PanicSaved);
    }

    /** The same button with the password trimmed before it is stored, so
        that the lock screen, which trims what it compares, can match it. */
    method OnPanicPasswordSaveTrimmed(password: string, confirm: string)
      requires Valid()
      modifies this, stealth
      ensures Valid()
      ensures switchChecked == old(switchChecked)
      ensures PanicDialogDecision(password, confirm) == RejectBlank ==>
                toast == Some(PanicEmpty) && stealth.prefs == old(stealth.prefs)
      ensures PanicDialogDecision(password, confirm) == RejectMismatch ==>
                toast == Some(PanicMismatch) && stealth.prefs == old(stealth.prefs)
      ensures PanicDialogDecision(password, confirm).SavePanic? ==>
                && toast == Some(PanicSaved)
                && stealth.prefs == old(stealth.prefs)[KEY_PANIC_HASH :=
                     StringValue(HashPassword(stealth.digest, Text.Trim(password)))]
    {
      match PanicDialogDecision(password, confirm)
      case RejectBlank =>
        toast := Some(PanicEmpty);
      case RejectMismatch =>
        toast := Some(PanicMismatch);
      case SavePanic(p) =>
        stealth.SetPanicPassword(p);
        toast := Some(PanicSaved);
    }

    /** The wipe dialog's positive button: every record is deleted. */
    method OnWipeConfirmed()
      requires Valid()
      modifies this, viewModel.dao
      ensures Valid()
      ensures viewModel.dao.rows == map[] && viewModel.AllItems() == []
      ensures toast == Some(WipeDone) && switchChecked == old(switchChecked)
    {
      viewModel.DeleteAllItems();
      toast := Some(WipeDone);
    }
  }
}
