/** The entry form (src/pages/TopPage.tsx).

    Pressing start checks the name first and the password second; only when
    both pass does the player go on to the lobby, carrying the name (which is
    also remembered in local storage). Editing either field clears the error
    message. The start button is disabled while either field is empty.
    Navigation and storage are represented by the outcome value. */
module TopPage {

  /** `GAME_PASSWORD`. */
  const GAME_PASSWORD: string := "futon"
  const NAME_ERROR: string := "名前を入力してください"
  const PASSWORD_ERROR: string := "パスワードが正しくありません"

  /** What pressing start leads to. */
  datatype StartOutcome =
    | NameMissing
    | WrongPassword
    | EnterLobby(name: string)

  /** `handleStart`'s decision. */
  function HandleStart(name: string, password: string): (r: StartOutcome)
    ensures r.NameMissing? <==> name == ""
    ensures r.WrongPassword? <==> name != "" && password != GAME_PASSWORD
    ensures r.EnterLobby? <==> name != "" && password == GAME_PASSWORD
    ensures r.EnterLobby? ==> r.name == name
  {
    if name == "" then NameMissing
    else if password != GAME_PASSWORD then WrongPassword
    else EnterLobby(name)
  }

  /** The name check comes first: with both fields wrong the name error is
      the one reported. */
  lemma NameCheckFirst(password: string)
    ensures HandleStart("", password) == NameMissing
  {
  }

  /** The form's state: both fields and the error shown under them. */
  datatype Form = Form(name: string, password: string, error: string)

  const EMPTY_FORM: Form := Form("", "", "")

  /** `disabled={!name || !password}` on the start button. Disabling never
      hides a successful start, since the password is not empty; and while
      the button can be pressed the name check cannot fail, so an enabled
      press either enters the lobby or reports a wrong password. */
  predicate StartDisabled(f: Form)
    ensures StartDisabled(f) ==> !HandleStart(f.name, f.password).EnterLobby?
    ensures !StartDisabled(f) ==> !HandleStart(f.name, f.password).NameMissing?
  {
    f.name == "" || f.password == ""
  }

  /** Typing in the name field. */
  function EditName(f: Form, name: string): (r: Form)
    ensures r.name == name && r.password == f.password
    ensures r.error == ""
  {
    Form(name, f.password, "")
  }

  /** Typing in the password field. */
  function EditPassword(f: Form, password: string): (r: Form)
    ensures r.password == password && r.name == f.name
    ensures r.error == ""
  {
    Form(f.name, password, "")
  }

  /** Pressing start: a failed check shows its message and keeps the fields;
      a pass leaves the form as it is (the page is left). */
  function PressStart(f: Form): (r: Form)
    ensures r.name == f.name && r.password == f.password
    ensures HandleStart(f.name, f.password).NameMissing? ==> r.error == NAME_ERROR
    ensures HandleStart(f.name, f.password).WrongPassword? ==> r.error == PASSWORD_ERROR
    ensures HandleStart(f.name, f.password).EnterLobby? ==> r == f
  {
    match HandleStart(f.name, f.password)
    case NameMissing => f.(error := NAME_ERROR)
    case WrongPassword => f.(error := PASSWORD_ERROR)
    case EnterLobby(_) => f
  }

  /** An error shown after a failed press disappears as soon as either field
      is edited. */
  lemma EditClearsError(f: Form, text: string)
    ensures EditName(PressStart(f), text).error == ""
    ensures EditPassword(PressStart(f), text).error == ""
  {
  }

  /** One user interaction with the form. */
  datatype FormEvent = TypeName(name: string) | TypePassword(password: string) | Press

  /** One interaction. An edit replaces its field and clears the error. A
      press keeps both fields; it shows the password message when the button
      is enabled and the password is wrong, and otherwise changes nothing:
      the disabled button ignores it, and a successful start leaves the
      page. */
  function Step(f: Form, e: FormEvent): (r: Form)
    ensures e.TypeName? ==> r.name == e.name && r.password == f.password && r.error == ""
    ensures e.TypePassword? ==> r.password == e.password && r.name == f.name && r.error == ""
    ensures e.Press? && !StartDisabled(f) && f.password != GAME_PASSWORD ==>
              r == f.(error := PASSWORD_ERROR)
    ensures e.Press? && (StartDisabled(f) || f.password == GAME_PASSWORD) ==> r == f
  {
    match e
    case TypeName(name) => EditName(f, name)
    case TypePassword(password) => EditPassword(f, password)
    case Press => if StartDisabled(f) then f else PressStart(f)
  }

  /** The form after the interactions `events`, first to last. */
  function Interact(f: Form, events: seq<FormEvent>): Form
    decreases |events|
  {
    if events == [] then f
    else Step(Interact(f, events[..|events| - 1]), events[|events| - 1])
  }

  /** Starting from the empty form, the error shown is always empty or the
      password message: the name message needs a press with an empty name,
      and then the button is disabled. The error is empty right after any
      edit. */
  lemma {:induction false} ErrorAlwaysKnown(events: seq<FormEvent>)
    ensures var e := Interact(EMPTY_FORM, events).error;
      e == "" || e == PASSWORD_ERROR
    ensures events != [] && !events[|events| - 1].Press? ==>
      Interact(EMPTY_FORM, events).error == ""
    decreases |events|
  {
    if events != [] {
      ErrorAlwaysKnown(events[..|events| - 1]);
    }
  }
}
