# dm.pyOuthy: the secret-hiding state machine

dm.pyOuthy is a small tkinter window that shows TOTP codes (RFC 6238) for a
Base32 shared secret. It keeps the secret in memory only. The user types the
secret into an entry. The 'Hide' button moves the secret out of the entry into
a field of the `AppGui` object and turns the button bold and red. 'Gen OTP'
computes the code from the hidden secret if there is one, and otherwise from
whatever the entry shows. 'Clear' forgets everything and turns the button back
to its plain style.

This project models that state and the three callbacks:

- `secret_vault.dfy`, module `SecretVault`: the state as a value (`State`:
  hidden secret, hidden flag, secret entry, OTP entry, 'Hide' button style).
  It has one function per callback (`Hide`, `Clear`, `GenOtp`), one per kind
  of typing into an entry (`TypeSecret`, `TypeOtp`), and `EffectiveSecret`,
  the secret 'Gen OTP' uses. `Run` plays a user session, a sequence of
  `Event`s. `Inv` is the invariant of every reachable state. Lemmas cover
  single steps and whole sessions.
- `app_gui.dfy`, module `PyOuthy`: the class `AppGui` with the source's
  mutable fields. It has a constructor and one method per callback. Each
  method states the new value of every field it changes, and says that
  `Model()` is the matching `SecretVault` function of the old state.
  Each method's `modifies` frame names only the fields it writes, so the frame states what it leaves alone. A client
  method, `HideRetypeGenerate`, shows that the contracts are enough to reason
  about a whole session.

The TOTP code itself comes from the `pyotp` library, which is not part of this
model. The generator is a parameter `totp: (string, nat) -> string` that maps
a secret and a TOTP time counter to a code. The wall-clock read inside
`pyotp`'s `now()` is the parameter `counter`.

'Hide' has no guard, so a second press with no typing in between hides the
empty string (`HideTwiceForgetsSecret`).

## Model

| member | source | states |
|---|---|---|
| `SecretVault.InitValid` | dm.pyOuthy.V.1.py:72-77 | the initial state has an empty hidden secret, the flag false, both entries empty, the plain button style, and satisfies the invariant |
| `SecretVault.HideAndClearEstablishInv` | dm.pyOuthy.V.1.py:120-135 | Hide and Clear each lead to a state of the invariant from any state, valid or not |
| `SecretVault.StepPreservesInv` | dm.pyOuthy.V.1.py:120-145 | every event (the three buttons and typing into either entry) keeps "nothing kept unless hidden" and "button highlighted exactly when hidden" |
| `SecretVault.ClearRestoresInit` | dm.pyOuthy.V.1.py:128-135 | Clear from any state gives exactly the state the window starts in |
| `SecretVault.ClearIdempotent` | dm.pyOuthy.V.1.py:128-135 | pressing Clear twice gives the same state as pressing it once |
| `SecretVault.HideThenClearIsInit` | dm.pyOuthy.V.1.py:120-135 | Hide followed by Clear returns the initial state |
| `SecretVault.HideTwiceForgetsSecret` | dm.pyOuthy.V.1.py:120-124 | two Hides with no typing in between leave the secret hidden but empty, so Gen OTP then uses "" |
| `SecretVault.ButtonTellsSecretSource` | dm.pyOuthy.V.1.py:38-42 | in a reachable state, a red button means Gen OTP uses the hidden secret and a black one means it uses the entry's text |
| `SecretVault.GenOtpWritesOnlyOtp` | dm.pyOuthy.V.1.py:137-145 | Gen OTP sets the OTP entry to the generator's code for the effective secret and changes no other field (the generator taken as total; see Left out) |
| `SecretVault.RunPreservesInv` | dm.pyOuthy.V.1.py:120-145 | any session that starts in a state of the invariant ends in one |
| `SecretVault.ReachableStatesValid` | dm.pyOuthy.V.1.py:72-145 | every state reachable from the initial state satisfies the invariant |
| `SecretVault.ClearAfterAnySession` | dm.pyOuthy.V.1.py:128-135 | whatever happened before, a session ending with Clear ends in the initial state |
| `SecretVault.HiddenSecretSurvivesEdits` | dm.pyOuthy.V.1.py:120-145 | once a secret is hidden, events other than Hide and Clear keep the flag, the hidden secret and the effective secret unchanged |
| `SecretVault.HiddenSecretGeneratesCode` | dm.pyOuthy.V.1.py:120-145 | Hide, then any typing or code generation, then Gen OTP, shows the code for the text that was hidden |
| `SecretVault.HiddenIffLastButtonIsHide` | dm.pyOuthy.V.1.py:120-135 | after a session a secret is hidden exactly when its last Hide or Clear press was Hide (or, with neither, when it was hidden before), and the button style agrees |
| `PyOuthy.AppGui.constructor` | dm.pyOuthy.V.1.py:72-103 | a new window has nothing hidden, both entries empty, the 'Hide' button in the default font and black; its model is the initial state |
| `PyOuthy.AppGui.HideClick` | dm.pyOuthy.V.1.py:120-126 | the hidden secret is the entry's old text, the flag is set, the entry is blank, the button is bold and red, the OTP entry is unchanged; no precondition |
| `PyOuthy.AppGui.ClearClick` | dm.pyOuthy.V.1.py:128-135 | from any state: hidden secret and both entries empty, flag false, button plain; the result is the initial state |
| `PyOuthy.AppGui.GenOtpClick` | dm.pyOuthy.V.1.py:137-145 | only the OTP entry changes; it is set to the code for the hidden secret if one is hidden, else for the entry's text (the generator taken as total; see Left out); on a valid object a red button means the hidden secret's code and a black one the entry's |
| `PyOuthy.AppGui.TypeSecret` | dm.pyOuthy.V.1.py:97 | typing into the secret entry changes only its text and keeps the invariant |
| `PyOuthy.AppGui.TypeOtp` | dm.pyOuthy.V.1.py:113 | typing into the OTP entry changes only its text and keeps the invariant |
| `PyOuthy.HideRetypeGenerate` | dm.pyOuthy.V.1.py:36-42 | on a fresh window, typing a secret, hiding it and typing something else gives the code for the hidden secret, while the entry shows the new text |

## Left out

- The TOTP computation (`pyotp.TOTP(s).now()`, lines 144-145): a call into a library outside the repository plus a clock read. It is the parameter `totp` applied to a time counter. Its 30-second step and 6-digit format belong to the library.
- Errors raised by `pyotp` (an invalid Base32 secret, for one): where `totp.now()` raises at line 145, the callback stops before `self.otpStr.set(...)` and the OTP entry keeps its previous text. The model treats `totp` as total, so `GenOtp` and `GenOtpClick` always write its result.
- Widget construction, fonts as tkinter objects and the grid layout (lines 79-114). Only the 'Hide' button's font weight and colour are kept, as `ButtonStyle`.
- `makeTheGUI`, `main` and the Tk event loop (lines 150-162). A session is modelled as a sequence of events.
- Overwriting the secret's memory on Clear: Python reassigns a string at line 130, and Dafny values have no memory to overwrite.
- Typing into an entry is modelled as replacing its whole text at once, not keystroke by keystroke.
