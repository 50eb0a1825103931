/** The state behind the dm.pyOuthy window's secret controls, as values.

    The window keeps a hidden shared secret, a flag saying whether one is
    hidden, the text of the secret entry, the text of the OTP entry and the
    style of the 'Hide' button. Each button callback is a function from state
    to state here; a user session is a sequence of events run from the
    initial state. The class in module PyOuthy is proved against these
    functions. */
module SecretVault {

  /** Weight of the 'Hide' button's font (the window's dfltFont or boldFont). */
  datatype Weight = Normal | Bold

  /** Foreground colour of the 'Hide' button's text. */
  datatype Colour = Black | Red

  datatype ButtonStyle = ButtonStyle(weight: Weight, fg: Colour)

  /** The style the 'Hide' button is created with and that Clear restores. */
  const PlainStyle := ButtonStyle(Normal, Black)

  /** The style Hide gives the button: the 'secret is hidden' signal. */
  const AlertStyle := ButtonStyle(Bold, Red)

  /** The one-time-password generator the window calls (pyotp's TOTP):
      from a shared secret and a TOTP time counter to the code it shows.
      The window does not define it, so it is a parameter of the model. */
  type Totp = (string, nat) -> string

  datatype State = State(
    saved: string,            // secretSAVED, the hidden secret
    isSaved: bool,            // isSaved, whether a secret is hidden
    entry: string,            // secretStr, the text of the secret entry
    otp: string,              // otpStr, the text of the OTP entry
    hideStyle: ButtonStyle)   // font and colour of the 'Hide' button

  /** What the user can do: press one of the three buttons, or type into
      one of the two entries (which then holds `text`). */
  datatype Event =
    | HidePressed
    | ClearPressed
    | GenOtpPressed(counter: nat)
    | SecretTyped(text: string)
    | OtpTyped(text: string)

  /** The invariant of every state the window can reach: nothing is kept
      while nothing is hidden, and the button is highlighted exactly when
      a secret is hidden. */
  predicate Inv(st: State) {
    && (!st.isSaved ==> st.saved == "")
    && st.hideStyle == (if st.isSaved then AlertStyle else PlainStyle)
  }

  /** The state the window starts in. */
  function Init(): (st: State) {
    State("", false, "", "", PlainStyle)
  }

  /** The 'Hide' button: keep the entry's text as the secret, mark it
      hidden, blank the entry, highlight the button. There is no guard:
      a second press keeps whatever the entry holds by then. */
  function Hide(st: State): (r: State) {
    State(st.entry, true, "", st.otp, AlertStyle)
  }

  /** The 'Clear' button: forget the secret, blank both entries and
      restore the button's plain style, whatever the state was. */
  function Clear(st: State): (r: State) {
    State("", false, "", "", PlainStyle)
  }

  /** The secret the 'Gen OTP' button hands to the generator. */
  function EffectiveSecret(st: State): (s: string) {
    if st.isSaved then st.saved else st.entry
  }

  /** The 'Gen OTP' button, at TOTP time counter `counter`. */
  function GenOtp(st: State, totp: Totp, counter: nat): (r: State) {
    st.(otp := totp(EffectiveSecret(st), counter))
  }

  /** The user edits the secret entry until it holds `text`. */
  function TypeSecret(st: State, text: string): (r: State) {
    st.(entry := text)
  }

  /** The user edits the OTP entry until it holds `text`. */
  function TypeOtp(st: State, text: string): (r: State) {
    st.(otp := text)
  }

  function Step(st: State, e: Event, totp: Totp): (r: State) {
    match e
    case HidePressed => Hide(st)
    case ClearPressed => Clear(st)
    case GenOtpPressed(counter) => GenOtp(st, totp, counter)
    case SecretTyped(text) => TypeSecret(st, text)
    case OtpTyped(text) => TypeOtp(st, text)
  }

  /** The state after the events `evs`, in order, starting from `st`. */
  function Run(st: State, evs: seq<Event>, totp: Totp): (r: State)
    decreases |evs|
  {
    if evs == [] then st else Run(Step(st, evs[0], totp), evs[1..], totp)
  }

  /** An event that touches neither the hidden secret nor the flag:
      anything but the 'Hide' and 'Clear' buttons. */
  predicate KeepsSecret(e: Event) {
    !e.HidePressed? && !e.ClearPressed?
  }

  /** Whether a secret is hidden after `evs`, read backwards from the last
      event: the last 'Hide' or 'Clear' press decides, and with neither the
      flag is what it was before (`wasHidden`). */
  function HiddenAfter(wasHidden: bool, evs: seq<Event>): (b: bool)
    decreases |evs|
  {
    if evs == [] then wasHidden
    else
      match evs[|evs| - 1]
      case HidePressed => true
      case ClearPressed => false
      case _ => HiddenAfter(wasHidden, evs[..|evs| - 1])
  }

  // ---------------------------------------------------------------- single steps

  /** The window starts in a state of the invariant. */
  lemma InitValid()
    ensures Inv(Init())
    ensures Init().saved == "" && !Init().isSaved && Init().entry == "" && Init().otp == ""
    ensures Init().hideStyle == PlainStyle
  {
  }

  /** Hide and Clear establish the invariant from any state at all. */
  lemma HideAndClearEstablishInv(st: State)
    ensures Inv(Hide(st)) && Inv(Clear(st))
  {
  }

  /** Every event, typing included, keeps the invariant. */
  lemma StepPreservesInv(st: State, e: Event, totp: Totp)
    requires Inv(st)
    ensures Inv(Step(st, e, totp))
  {
  }

  /** Clear resets every field to what the window started with. */
  lemma ClearRestoresInit(st: State)
    ensures Clear(st) == Init()
  {
  }

  /** Pressing Clear twice is the same as pressing it once. */
  lemma ClearIdempotent(st: State)
    ensures Clear(Clear(st)) == Clear(st)
  {
  }

  /** Hide followed by Clear leaves the state the window started in. */
  lemma HideThenClearIsInit(st: State)
    ensures Clear(Hide(st)) == Init()
  {
  }

  /** Hide blanks the entry, so a second press with no typing in between
      replaces the hidden secret with the empty string. */
  lemma HideTwiceForgetsSecret(st: State)
    ensures Hide(Hide(st)).saved == ""
    ensures Hide(Hide(st)).isSaved
    ensures EffectiveSecret(Hide(Hide(st))) == ""
  {
  }

  /** In a reachable state the button's colour tells which secret Gen OTP
      uses: red means the hidden one, black the entry's text. */
  lemma ButtonTellsSecretSource(st: State)
    requires Inv(st)
    ensures st.hideStyle.fg == Red ==> EffectiveSecret(st) == st.saved
    ensures st.hideStyle.fg == Black ==> EffectiveSecret(st) == st.entry
  {
  }

  /** Gen OTP changes the OTP entry alone and writes the generator's code
      for the effective secret into it. */
  lemma GenOtpWritesOnlyOtp(st: State, totp: Totp, counter: nat)
    ensures GenOtp(st, totp, counter).otp == totp(EffectiveSecret(st), counter)
    ensures GenOtp(st, totp, counter).(otp := st.otp) == st
  {
  }

  // ---------------------------------------------------------------- whole sessions

  /** Running `a` then `b` is running `a + b`. */
  lemma {:induction false} RunAppend(st: State, a: seq<Event>, b: seq<Event>, totp: Totp)
    ensures Run(st, a + b, totp) == Run(Run(st, a, totp), b, totp)
    decreases |a|
  {
    if a == [] {
      assert a + b == b;
    } else {
      assert (a + b)[0] == a[0];
      assert (a + b)[1..] == a[1..] + b;
      RunAppend(Step(st, a[0], totp), a[1..], b, totp);
    }
  }

  /** The invariant holds after any sequence of events from a state of it. */
  lemma {:induction false} RunPreservesInv(st: State, evs: seq<Event>, totp: Totp)
    requires Inv(st)
    ensures Inv(Run(st, evs, totp))
    decreases |evs|
  {
    if evs != [] {
      StepPreservesInv(st, evs[0], totp);
      RunPreservesInv(Step(st, evs[0], totp), evs[1..], totp);
    }
  }

  /** Every state the window can reach satisfies the invariant. */
  lemma ReachableStatesValid(evs: seq<Event>, totp: Totp)
    ensures Inv(Run(Init(), evs, totp))
  {
    InitValid();
    RunPreservesInv(Init(), evs, totp);
  }

  /** Whatever happened before, a final Clear leaves the initial state. */
  lemma ClearAfterAnySession(st: State, evs: seq<Event>, totp: Totp)
    ensures Run(st, evs + [ClearPressed], totp) == Init()
  {
    RunAppend(st, evs, [ClearPressed], totp);
  }

  /** Once a secret is hidden, typing and generating codes change neither
      the hidden secret nor the secret Gen OTP uses; only Hide and Clear do. */
  lemma {:induction false} HiddenSecretSurvivesEdits(st: State, evs: seq<Event>, totp: Totp)
    requires st.isSaved
    requires forall i :: 0 <= i < |evs| ==> KeepsSecret(evs[i])
    ensures Run(st, evs, totp).isSaved
    ensures Run(st, evs, totp).saved == st.saved
    ensures EffectiveSecret(Run(st, evs, totp)) == EffectiveSecret(st)
    decreases |evs|
  {
    if evs != [] {
      assert KeepsSecret(evs[0]);
      HiddenSecretSurvivesEdits(Step(st, evs[0], totp), evs[1..], totp);
    }
  }

  /** Hide the entry's text, retype or generate codes at will, then press
      Gen OTP: the code is for the text that was hidden, not for what the
      entry holds now. */
  lemma HiddenSecretGeneratesCode(st: State, edits: seq<Event>, counter: nat, totp: Totp)
    requires forall i :: 0 <= i < |edits| ==> KeepsSecret(edits[i])
    ensures Run(st, [HidePressed] + edits + [GenOtpPressed(counter)], totp).otp == totp(st.entry, counter)
  {
    var hidden := Hide(st);
    RunAppend(st, [HidePressed], edits, totp);
    RunAppend(st, [HidePressed] + edits, [GenOtpPressed(counter)], totp);
    assert Run(st, [HidePressed], totp) == hidden;
    HiddenSecretSurvivesEdits(hidden, edits, totp);
  }

  /** Whether a secret is hidden after a session is decided by the last
      'Hide' or 'Clear' press in it, and the button's style follows. */
  lemma {:induction false} HiddenIffLastButtonIsHide(st: State, evs: seq<Event>, totp: Totp)
    requires Inv(st)
    ensures Run(st, evs, totp).isSaved == HiddenAfter(st.isSaved, evs)
    ensures Run(st, evs, totp).hideStyle == (if HiddenAfter(st.isSaved, evs) then AlertStyle else PlainStyle)
    decreases |evs|
  {
    if evs != [] {
      var n := |evs| - 1;
      var front := evs[..n];
      assert evs == front + [evs[n]];
      RunAppend(st, front, [evs[n]], totp);
      HiddenIffLastButtonIsHide(st, front, totp);
    }
  }
}
