/** `SettingsDialog` in core/dialog/setting_dialog.py: the state of the
    API-key field, of its validate and save buttons, and the configuration
    file the dialog writes. The API call that validates a key is an oracle
    whose answer is a parameter; message boxes are left out, and a question
    box is its answer. */
module SettingDialog {
  import opened Text
  import Json
  import opened ConfigFile
  import SettingsHandler
  import Startup

  /** `keyText` is the field's text, `valid` is `api_key_valid`,
      `readOnly` the field's read-only flag, `validateEnabled` and
      `saveEnabled` the two buttons, `accepted` whether the dialog was
      accepted, and `file` the configuration file. */
  datatype Dialog = Dialog(keyText: string, valid: bool, readOnly: bool, validateEnabled: bool,
                           saveEnabled: bool, file: Stored, accepted: bool)

  const KeyName := "claude_key"

  /** The state the constructor reaches before loading: `api_key_valid` is
      `False` and `update_buttonbox_state()` disables Save. */
  function Initial(file: Stored): (d: Dialog)
    ensures !d.valid && !d.saveEnabled && !d.readOnly && d.validateEnabled && !d.accepted
  {
    Dialog([], false, false, true, false, file, false)
  }

  /** `update_buttonbox_state()`: Save is enabled exactly when the key is
      valid. */
  function UpdateButtonbox(d: Dialog): (r: Dialog)
    ensures r.saveEnabled == d.valid
    ensures r.(saveEnabled := d.saveEnabled) == d
  {
    d.(saveEnabled := d.valid)
  }

  /** The stored key `load_existing_settings()` accepts: a string under
      `claude_key` that is not blank. */
  function StoredKey(file: Stored): (r: Wrappers.Option<string>)
    ensures r.Some? <==> file.Holds? && file.v.Obj? && KeyName in file.v.fields
                         && file.v.fields[KeyName].Str? && Strip(file.v.fields[KeyName].s) != []
    ensures r.Some? ==> r.value == file.v.fields[KeyName].s
  {
    match file
    case Holds(Obj(m)) =>
      if KeyName in m && m[KeyName].Str? && Strip(m[KeyName].s) != [] then Wrappers.Some(m[KeyName].s)
      else Wrappers.None
    case _ => Wrappers.None
  }

  /** `load_existing_settings()`: an accepted stored key fills the field,
      makes the dialog valid, locks the field and the validate button, and
      the buttons are updated. A dict without the key, or whose key is a
      blank string, only updates the buttons. Anything that raises on the
      way changes nothing: no file, an undecodable one, a value `in` cannot
      search, indexing a string or list that contains `claude_key`,
      `.strip()` on a key that is not a string, or `config.get` on a string
      or list without it, which raises before the buttons are updated. */
  function LoadExisting(d: Dialog): (r: Dialog)
    ensures StoredKey(d.file).Some? ==>
              r == d.(keyText := StoredKey(d.file).value, valid := true, readOnly := true,
                      validateEnabled := false, saveEnabled := true)
    ensures !d.file.Holds? ==> r == d
    ensures d.file.Holds? && d.file.v.Obj? && KeyName !in d.file.v.fields ==> r == UpdateButtonbox(d)
    ensures d.file.Holds? && !d.file.v.Obj? ==> r == d
    ensures (d.file.Holds? && d.file.v.Obj? && KeyName in d.file.v.fields
             && d.file.v.fields[KeyName].Str? && StoredKey(d.file).None?) ==> r == UpdateButtonbox(d)
    ensures (d.file.Holds? && d.file.v.Obj? && KeyName in d.file.v.fields
             && !d.file.v.fields[KeyName].Str?) ==> r == d
  {
    match StoredKey(d.file)
    case Some(key) =>
      UpdateButtonbox(d.(keyText := key, valid := true, readOnly := true, validateEnabled := false))
    case None =>
      match d.file
      case Holds(v) =>
        (match Startup.HasKey(v, KeyName)
         case Some(false) => if v.Obj? then UpdateButtonbox(d) else d
         case Some(true) => if v.Obj? && v.fields[KeyName].Str? then UpdateButtonbox(d) else d
         case None => d)
      case _ => d
  }

  /** The dialog as it opens on `file`. */
  function Open(file: Stored): (d: Dialog)
    ensures d.valid <==> StoredKey(file).Some?
    ensures d.file == file && !d.accepted
  {
    LoadExisting(Initial(file))
  }

  /** `save_settings()` with `proceed` the answer to the question asked
      about a blank key. The stripped key is stored under `claude_key` in
      the configuration (read as `{}` when it is missing or unreadable),
      every other key kept, and the dialog is accepted. A "No" to a blank
      key, or a configuration that is not a dict (the assignment raises),
      leaves everything as it was. */
  function Save(d: Dialog, proceed: bool): (r: Dialog)
    ensures Strip(d.keyText) == [] && !proceed ==> r == d
    ensures ConfigFile.DictOrEmpty(d.file).None? ==> r == d
    ensures (Strip(d.keyText) != [] || proceed) && ConfigFile.DictOrEmpty(d.file).Some? ==>
              var m := ConfigFile.DictOrEmpty(d.file).value;
              && r.file == Holds(Json.Obj(m[KeyName := Json.Str(Strip(d.keyText))]))
              && r.accepted
              && r.(file := d.file, accepted := d.accepted) == d
  {
    var key := Strip(d.keyText);
    if key == [] && !proceed then d
    else
      match ConfigFile.DictOrEmpty(d.file)
      case None => d
      case Some(settings) => d.(file := Holds(Json.Obj(settings[KeyName := Json.Str(key)])), accepted := true)
  }

  /** `validate_api_key()` with `apiAccepts` the oracle's answer for the
      stripped key. A blank key, or one the API rejects, leaves the dialog
      invalid with the field editable again; a key the API accepts makes it
      valid, locks the field and saves. Save ends up enabled exactly when
      the key is valid. */
  function Validate(d: Dialog, apiAccepts: bool): (r: Dialog)
    ensures Strip(d.keyText) == [] || !apiAccepts ==>
              r == d.(valid := false, readOnly := false, validateEnabled := true, saveEnabled := false)
    ensures Strip(d.keyText) != [] && apiAccepts ==>
              && r.valid && r.readOnly && !r.validateEnabled && r.saveEnabled
              && r.keyText == d.keyText
              && r.file == Save(d, true).file && r.accepted == Save(d, true).accepted
  {
    var key := Strip(d.keyText);
    var locked := d.(readOnly := true, validateEnabled := false);
    if key == [] then
      UpdateButtonbox(locked.(valid := false, readOnly := false, validateEnabled := true))
    else if apiAccepts then
      var ok := locked.(valid := true, saveEnabled := true);
      UpdateButtonbox(Save(ok, true))
    else
      UpdateButtonbox(locked.(valid := false, readOnly := false, validateEnabled := true))
  }

  /** `reset_api_key()`: editable again, invalid, Save disabled. */
  function Reset(d: Dialog): (r: Dialog)
    ensures !r.valid && !r.readOnly && r.validateEnabled && !r.saveEnabled
    ensures r.keyText == d.keyText && r.file == d.file && r.accepted == d.accepted
  {
    UpdateButtonbox(d.(readOnly := false, validateEnabled := true, valid := false))
  }

  /** What the user can do: type into the field, press one of the buttons
      (with the oracle's or the question's answer), or reset. */
  datatype Action = Edit(text: string) | PressValidate(apiAccepts: bool) | PressSave(proceed: bool) | PressReset

  /** One action; Qt ignores typing into a read-only field and clicks on a
      disabled button. Only the validate and save buttons can write the
      file or accept the dialog. */
  function Step(d: Dialog, a: Action): (r: Dialog)
    ensures !a.PressSave? && !a.PressValidate? ==> r.file == d.file && r.accepted == d.accepted
    ensures a.Edit? && d.readOnly ==> r == d
    ensures a.Edit? && !d.readOnly ==> r.keyText == a.text
    ensures a.PressSave? && !d.saveEnabled ==> r == d
  {
    match a
    case Edit(text) => if d.readOnly then d else d.(keyText := text)
    case PressValidate(ok) => if d.validateEnabled then Validate(d, ok) else d
    case PressSave(proceed) => if d.saveEnabled then Save(d, proceed) else d
    case PressReset => Reset(d)
  }

  /** The dialog after the actions, in order. Without a press of validate
      or save the file stays as it was and the dialog is not accepted. */
  function Run(d: Dialog, actions: seq<Action>): (r: Dialog)
    ensures (forall i :: 0 <= i < |actions| ==> !actions[i].PressSave? && !actions[i].PressValidate?) ==>
              r.file == d.file && r.accepted == d.accepted
    decreases |actions|
  {
    if actions == [] then d else Run(Step(d, actions[0]), actions[1..])
  }

  /** The dialog's consistency: Save is enabled exactly when the key is
      valid, the field is locked and the validate button disabled exactly
      then, and a valid key is never blank. */
  predicate Consistent(d: Dialog) {
    && d.saveEnabled == d.valid
    && (d.valid <==> d.readOnly)
    && (d.valid <==> !d.validateEnabled)
    && (d.valid ==> Strip(d.keyText) != [])
  }

  /** The dialog opens consistent, whatever the file holds. */
  lemma OpenConsistent(file: Stored)
    ensures Consistent(Open(file))
  {
  }

  /** Every action keeps the dialog consistent. */
  lemma StepConsistent(d: Dialog, a: Action)
    requires Consistent(d)
    ensures Consistent(Step(d, a))
  {
  }

  /** Consistency holds along any sequence of actions from opening. */
  lemma {:induction false} RunConsistent(d: Dialog, actions: seq<Action>)
    requires Consistent(d)
    ensures Consistent(Run(d, actions))
    decreases |actions|
  {
    if actions != [] {
      StepConsistent(d, actions[0]);
      RunConsistent(Step(d, actions[0]), actions[1..]);
    }
  }

  /** A key saved from the dialog is found again: a dialog opened on the
      written file starts valid with the stripped key, and the settings
      handler's `check_settings()` is true on it. */
  lemma SavedKeyReopens(d: Dialog, proceed: bool)
    requires Strip(d.keyText) != [] && ConfigFile.DictOrEmpty(d.file).Some?
    ensures var file := Save(d, proceed).file;
            && Open(file).valid
            && Open(file).keyText == Strip(d.keyText)
            && SettingsHandler.CheckSettings(file) == Wrappers.Ok(true)
  {
    StripIdempotent(d.keyText);
  }

  import Wrappers
}
