/** The AppGui object of dm.pyOuthy: the mutable fields behind the window
    and the callbacks of its three buttons, each proved against the state
    function of module SecretVault that it implements. */
module PyOuthy {
  import opened SecretVault

  class AppGui {
    var secretSaved: string     // the hidden shared secret
    var isSaved: bool           // whether a secret is hidden
    var secretStr: string       // the text bound to the secret entry
    var otpStr: string          // the text bound to the OTP entry
    var hideStyle: ButtonStyle  // font and colour of the 'Hide' button

    /** The object's fields as a value of the abstract state. */
    function Model(): State
      reads this
    {
      State(secretSaved, isSaved, secretStr, otpStr, hideStyle)
    }

    predicate Valid()
      reads this
    {
      Inv(Model())
    }

    /** A new window: nothing hidden, both entries empty, the 'Hide' button
        in the window's default font and black. */
    constructor ()
      ensures secretSaved == "" && !isSaved && secretStr == "" && otpStr == ""
      ensures hideStyle == PlainStyle
      ensures Model() == Init()
      ensures Valid()
    {
      secretSaved := "";
      isSaved := false;
      secretStr := "";
      otpStr := "";
      hideStyle := PlainStyle;
    }

    /** The 'Hide' button: whatever the state, keep the entry's text as the
        secret, blank the entry and turn the button bold and red. */
    method HideClick()
      modifies this`secretSaved, this`isSaved, this`secretStr, this`hideStyle
      ensures secretSaved == old(secretStr) && isSaved && secretStr == ""
      ensures hideStyle == AlertStyle
      ensures otpStr == old(otpStr)
      ensures Model() == Hide(old(Model()))
      ensures Valid()
    {
      secretSaved := secretStr;
      isSaved := true;
      secretStr := "";
      hideStyle := AlertStyle;
    }

    /** The 'Clear' button: from any state, forget the secret, blank both
        entries and give the button back its plain style. */
    method ClearClick()
      modifies this
      ensures secretSaved == "" && !isSaved && secretStr == "" && otpStr == ""
      ensures hideStyle == PlainStyle
      ensures Model() == Clear(old(Model())) == Init()
      ensures Valid()
    {
      secretSaved := "";
      isSaved := false;
      secretStr := "";
      otpStr := "";
      hideStyle := PlainStyle;
    }

    /** The 'Gen OTP' button at TOTP time counter `counter`: pick the hidden
        secret if there is one, else the entry's text, and show its code.
        Only the OTP entry changes. */
    method GenOtpClick(totp: Totp, counter: nat)
      modifies this`otpStr
      ensures otpStr == totp(if old(isSaved) then old(secretSaved) else old(secretStr), counter)
      ensures old(Valid()) && old(hideStyle).fg == Red ==> otpStr == totp(old(secretSaved), counter)
      ensures old(Valid()) && old(hideStyle).fg == Black ==> otpStr == totp(old(secretStr), counter)
      ensures Model() == GenOtp(old(Model()), totp, counter)
      ensures Valid() == old(Valid())
    {
      var s: string;
      if isSaved {
        s := secretSaved;
      } else {
        s := secretStr;
      }
      otpStr := totp(s, counter);
    }

    /** The user edits the secret entry until it holds `text`. */
    method TypeSecret(text: string)
      modifies this`secretStr
      ensures secretStr == text
      ensures Model() == SecretVault.TypeSecret(old(Model()), text)
      ensures Valid() == old(Valid())
    {
      secretStr := text;
    }

    /** The user edits the OTP entry until it holds `text`. */
    method TypeOtp(text: string)
      modifies this`otpStr
      ensures otpStr == text
      ensures Model() == SecretVault.TypeOtp(old(Model()), text)
      ensures Valid() == old(Valid())
    {
      otpStr := text;
    }
  }

  /** A session on a fresh window: type `secret`, hide it, type `retyped`
      into the now blank entry, press Gen OTP. The code shown is the one
      for the hidden secret, and the entry still shows `retyped`. */
  method HideRetypeGenerate(secret: string, retyped: string, totp: Totp, counter: nat)
    returns (code: string, shown: string)
    ensures code == totp(secret, counter)
    ensures shown == retyped
  {
    var gui := new AppGui();
    gui.TypeSecret(secret);
    gui.HideClick();
    gui.TypeSecret(retyped);
    gui.GenOtpClick(totp, counter);
    code, shown := gui.otpStr, gui.secretStr;
  }
}
