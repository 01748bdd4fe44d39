/** The login window: a set of registered user names, kept trimmed and
    lower-cased, with the availability check run on every edit of the name
    field and the two buttons "Anmelden" (log in) and "Registrieren"
    (register). */
module LoginWindow {
  import opened Wrappers
  import opened JavaText

  /** `userText.getText().trim().toLowerCase()`: the name every decision
      looks up. */
  function Normalize(text: string): string {
    ToLower(Trim(text))
  }

  /** A normalised name is its own normal form, has no surrounding blanks
      and no upper-case letter, and is empty exactly for a blank input. */
  lemma NormalizeFacts(text: string)
    ensures Normalize(Normalize(text)) == Normalize(text)
    ensures IsTrimmed(Normalize(text))
    ensures forall i :: 0 <= i < |Normalize(text)| ==> !('A' <= Normalize(text)[i] <= 'Z')
    ensures Normalize(text) == [] <==> forall k :: 0 <= k < |text| ==> text[k] <= ' '
  {
    var t := Trim(text);
    TrimFacts(text);
    TrimOfTrimmed(t);
    TrimLowerCommute(t);
    ToLowerNormal(t);
    assert Normalize(Normalize(text)) == ToLower(ToLower(t));
    TrimLowerCommute(text);
    TrimFacts(ToLower(text));
  }

  /** Case and surrounding blanks do not matter: an input and its lower-case
      form name the same user. */
  lemma NormalizeIgnoresCase(text: string)
    ensures Normalize(ToLower(text)) == Normalize(text)
  {
    TrimLowerCommute(text);
    ToLowerNormal(Trim(text));
  }

  /** Every name of the set is in normal form. */
  ghost predicate AllNormalized(names: set<string>) {
    forall n :: n in names ==> Normalize(n) == n
  }

  /** The status line of the window. */
  datatype Message =
    | Blank                   // " " or "" : nothing to report
    | NameTaken               // "Benutzername bereits vergeben!"
    | NameAvailable           // "Benutzername verfügbar."
    | EnterName               // "Bitte Benutzername eingeben."
    | LoginSucceeded(shown: string)  // "Anmeldung erfolgreich für '<shown>'!"
    | NameNotFound            // "Benutzername nicht gefunden."
    | EnterNameToRegister     // "Bitte Benutzername für die Registrierung eingeben."
    | NameExists              // "Benutzername existiert bereits. ..."
    | Registered(shown: string)      // "Registrierung erfolgreich für '<shown>'! ..."

  /** `checkUsernameAvailability`: the register button is enabled for an
      empty field and for a name nobody has taken. */
  predicate RegisterEnabled(names: set<string>, text: string) {
    Normalize(text) == [] || Normalize(text) !in names
  }

  /** What the availability check shows. */
  function AvailabilityMessage(names: set<string>, text: string): (m: Message)
    ensures m == Blank <==> Normalize(text) == []
    ensures m == NameTaken <==> !RegisterEnabled(names, text)
    ensures m == NameAvailable <==> Normalize(text) != [] && Normalize(text) !in names
  {
    var name := Normalize(text);
    if name == [] then Blank
    else if name in names then NameTaken
    else NameAvailable
  }

  /** The login button accepts exactly a non-empty registered name. */
  predicate LoginAccepted(names: set<string>, text: string) {
    Normalize(text) != [] && Normalize(text) in names
  }

  /** What the login button shows; a success quotes the trimmed input with
      its original case. */
  function LoginMessage(names: set<string>, text: string): (m: Message)
    ensures m.LoginSucceeded? <==> LoginAccepted(names, text)
    ensures m.LoginSucceeded? ==> m.shown == Trim(text)
    ensures m == EnterName <==> Normalize(text) == []
    ensures m == NameNotFound <==> Normalize(text) != [] && Normalize(text) !in names
  {
    var name := Normalize(text);
    if name == [] then EnterName
    else if name in names then LoginSucceeded(Trim(text))
    else NameNotFound
  }

  /** The set after the register button: the normalised name is added when
      it is non-empty and not yet taken; otherwise nothing changes. */
  function AfterRegister(names: set<string>, text: string): (r: set<string>)
    ensures names <= r && r - names <= {Normalize(text)}
    ensures r != names <==> Normalize(text) != [] && Normalize(text) !in names
  {
    var name := Normalize(text);
    if name == [] || name in names then names else names + {name}
  }

  /** What the register button shows. */
  function RegisterMessage(names: set<string>, text: string): (m: Message)
    ensures m.Registered? <==> AfterRegister(names, text) != names
    ensures m.Registered? ==> m.shown == Trim(text)
    ensures m == EnterNameToRegister <==> Normalize(text) == []
    ensures m == NameExists <==> Normalize(text) != [] && Normalize(text) in names
  {
    var name := Normalize(text);
    if name == [] then EnterNameToRegister
    else if name in names then NameExists
    else Registered(Trim(text))
  }

  /** The register button only ever adds normal forms. */
  lemma RegisterKeepsNormalized(names: set<string>, text: string)
    requires AllNormalized(names)
    ensures AllNormalized(AfterRegister(names, text))
  {
    NormalizeFacts(text);
  }

  /** Once a name is registered, the next availability check for the same
      input reports it taken and disables the register button, and the
      login button accepts it. */
  lemma RegisterThenTaken(names: set<string>, text: string)
    requires Normalize(text) != []
    ensures var after := AfterRegister(names, text);
      !RegisterEnabled(after, text) && AvailabilityMessage(after, text) == NameTaken && LoginAccepted(after, text)
  {
  }

  /** Registering a name again changes nothing and reports it as existing. */
  lemma RegisterTwice(names: set<string>, text: string)
    ensures var after := AfterRegister(names, text);
      AfterRegister(after, text) == after && (Normalize(text) != [] ==> RegisterMessage(after, text) == NameExists)
  {
  }

  /** The login window. `registered` is the static `registeredUsernames`,
      `registerEnabled` the enabled state of the register button,
      `message` the status label, `openedFor` the name the main window was
      opened for once a login succeeded. */
  class Window {
    var registered: set<string>
    var registerEnabled: bool
    var message: Message
    var openedFor: Option<string>

    /** The window starts with an enabled register button, an empty status
        and the names `loadUsernames` found. `stored` is the set read from
        "users.ser", None when the file is missing or unreadable or holds no
        set; the static set then keeps `previous`, what it held before. */
    constructor(previous: set<string>, stored: Option<set<string>>)
      ensures registered == (if stored.Some? then stored.value else previous)
      ensures registerEnabled && message == Blank && openedFor == None
    {
      registered := if stored.Some? then stored.value else previous;
      registerEnabled := true;
      message := Blank;
      openedFor := None;
    }

    /** `checkUsernameAvailability`, run on every edit of the name field. */
    method CheckAvailability(text: string)
      modifies this
      ensures registered == old(registered) && openedFor == old(openedFor)
      ensures registerEnabled == RegisterEnabled(registered, text)
      ensures message == AvailabilityMessage(registered, text)
    {
      var name := Normalize(text);
      if name == [] {
        message := Blank;
        registerEnabled := true;
      } else if name in registered {
        message := NameTaken;
        registerEnabled := false;
      } else {
        message := NameAvailable;
        registerEnabled := true;
      }
    }

    /** The login button: never changes the set; on success the main window
        is opened for the normalised name. */
    method Login(text: string)
      modifies this
      ensures registered == old(registered) && registerEnabled == old(registerEnabled)
      ensures message == LoginMessage(registered, text)
      ensures openedFor == if LoginAccepted(registered, text) then Some(Normalize(text)) else old(openedFor)
    {
      var name := Normalize(text);
      if name == [] {
        message := EnterName;
      } else if name in registered {
        message := LoginSucceeded(Trim(text));
        openedFor := Some(name);
      } else {
        message := NameNotFound;
      }
    }

    /** The register button: adds a new non-empty name and returns the set
        `saveUsernames` writes; returns None, and changes nothing but the
        message, for an empty or taken name. A disabled button delivers no
        click, so the button is enabled. */
    method Register(text: string) returns (saved: Option<set<string>>)
      requires registerEnabled
      modifies this
      ensures registerEnabled == old(registerEnabled) && openedFor == old(openedFor)
      ensures registered == AfterRegister(old(registered), text)
      ensures message == RegisterMessage(old(registered), text)
      ensures saved == if registered != old(registered) then Some(registered) else None
    {
      var name := Normalize(text);
      if name == [] {
        message := EnterNameToRegister;
        saved := None;
      } else if name in registered {
        message := NameExists;
        saved := None;
      } else {
        registered := registered + {name};
        saved := Some(registered);
        message := Registered(Trim(text));
      }
    }
  }

  /** A successful register neither changes the name field nor runs the
      availability check, so the register button keeps the state the last
      check gave it: enabled, for a name that was new, while the label
      reports the registration. Only the next availability check, on the
      next edit of the field, reports the name taken and disables the
      button. */
  method StaleRegisterButton(previous: set<string>, text: string)
      returns (enabledAfterRegister: bool, messageAfterRegister: Message,
               enabledAfterCheck: bool, messageAfterCheck: Message)
    requires Normalize(text) != [] && Normalize(text) !in previous
    ensures enabledAfterRegister && messageAfterRegister == Registered(Trim(text))
    ensures !RegisterEnabled(AfterRegister(previous, text), text)
    ensures !enabledAfterCheck && messageAfterCheck == NameTaken
  {
    var w := new Window(previous, None);
    w.CheckAvailability(text);
    var saved := w.Register(text);
    enabledAfterRegister, messageAfterRegister := w.registerEnabled, w.message;
    w.CheckAvailability(text);
    enabledAfterCheck, messageAfterCheck := w.registerEnabled, w.message;
  }
}
