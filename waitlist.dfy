/** The waitlist form controller. It validates the email field on blur and on
    submit, shows or clears the error of each form group, and drives one
    submission through its states: the submit handler disables the button
    and starts a 100 ms timer; when that fires the form is posted; a
    resolved post shows the success banner and starts a 1500 ms timer whose
    expiry resets the form, re-enables the button, focuses the email field
    and hides the banner; a rejected post only re-enables the button. */
module Waitlist {
  import opened Email

  /** Where a submission stands. */
  datatype Phase =
    | Idle       // no submission under way, button enabled
    | Scheduled  // submit accepted, waiting for the 100 ms timer
    | Pending    // the post is on the network
    | Succeeded  // success banner shown, waiting for the 1500 ms timer

  /** The form's three text fields. */
  datatype Field = EmailField | NameField | MessageField

  /** The field set one post carries, as the fields held when it was sent. */
  datatype Submission = Submission(email: string, name: string, message: string)

  /** The button label while a submission is under way. */
  const BusyLabel: string := "Adding..."

  class Form {
    /** For each form group, whether it has an error element for its text. */
    const hasErrorElement: seq<bool>
    /** The index of the email field's group. */
    const emailGroup: nat

    /** The `error` class and the error element's text of each group. */
    var groupError: array<bool>
    var errorText: array<string>

    var email: string
    var name: string
    var message: string
    /** The email field was given focus by the script (and has not been left
        since). */
    var emailFocused: bool

    var phase: Phase
    var buttonDisabled: bool
    var buttonLabel: string
    /** The label saved by the last submit, restored afterwards. */
    var savedLabel: string
    /** The success banner's `visible` class and its `aria-hidden` value. */
    var bannerVisible: bool
    var bannerAriaHidden: string
    /** Every post sent so far, in order. */
    var posted: seq<Submission>

    /** The button is disabled exactly while a submission is under way, and
        then shows the busy label; the banner is shown, and announced, exactly
        between a resolved post and the reset. */
    ghost predicate Valid()
      reads this
    {
      && groupError.Length == errorText.Length == |hasErrorElement|
      && emailGroup < groupError.Length
      && (buttonDisabled <==> phase != Idle)
      && buttonLabel == (if phase == Idle then savedLabel else BusyLabel)
      && (bannerVisible <==> phase == Succeeded)
      && bannerAriaHidden == (if bannerVisible then "false" else "true")
    }

    /** The page at load: no errors, empty error texts, empty fields, the
        button enabled with `initialLabel`, the banner hidden. */
    constructor (groups: seq<bool>, emailGroup: nat, initialLabel: string)
      requires emailGroup < |groups|
      ensures Valid() && fresh(groupError) && fresh(errorText)
      ensures hasErrorElement == groups && this.emailGroup == emailGroup
      ensures forall g | 0 <= g < groupError.Length :: !groupError[g] && errorText[g] == ""
      ensures email == name == message == "" && !emailFocused
      ensures phase == Idle && !buttonDisabled && buttonLabel == savedLabel == initialLabel
      ensures !bannerVisible && bannerAriaHidden == "true" && posted == []
    {
      hasErrorElement := groups;
      this.emailGroup := emailGroup;
      groupError := new bool[|groups|](_ => false);
      errorText := new string[|groups|](_ => "");
      email, name, message := "", "", "";
      emailFocused := false;
      phase := Idle;
      buttonDisabled := false;
      buttonLabel := initialLabel;
      savedLabel := initialLabel;
      bannerVisible := false;
      bannerAriaHidden := "true";
      posted := [];
    }

    /** The user edits one of the fields. */
    method Input(f: Field, value: string)
      requires Valid()
      modifies this`email, this`name, this`message
      ensures Valid()
      ensures email == (if f == EmailField then value else old(email))
      ensures name == (if f == NameField then value else old(name))
      ensures message == (if f == MessageField then value else old(message))
    {
      match f
      case EmailField => email := value;
      case NameField => name := value;
      case MessageField => message := value;
    }

    /** showError: add `error` to group `g` and, if it has an error element,
        set its text to `msg`. */
    method ShowError(g: nat, msg: string)
      requires Valid() && g < groupError.Length
      modifies groupError, errorText
      ensures forall h | 0 <= h < groupError.Length ::
        groupError[h] == if h == g then true else old(groupError[h])
      ensures forall h | 0 <= h < errorText.Length ::
        errorText[h] == if h == g && hasErrorElement[h] then msg else old(errorText[h])
    {
      groupError[g] := true;
      if hasErrorElement[g] {
        errorText[g] := msg;
      }
    }

    /** clearError: remove `error` from group `g` and, if it has an error
        element, empty its text. */
    method ClearError(g: nat)
      requires Valid() && g < groupError.Length
      modifies groupError, errorText
      ensures forall h | 0 <= h < groupError.Length ::
        groupError[h] == if h == g then false else old(groupError[h])
      ensures forall h | 0 <= h < errorText.Length ::
        errorText[h] == if h == g && hasErrorElement[h] then "" else old(errorText[h])
    {
      groupError[g] := false;
      if hasErrorElement[g] {
        errorText[g] := "";
      }
    }

    /** Apply the decision on the email field to the email group: show the
        matching message, or clear the error. */
    method ApplyCheck(c: FieldCheck)
      requires Valid()
      modifies groupError, errorText
      ensures forall h | 0 <= h < groupError.Length ::
        groupError[h] == if h == emailGroup then c != Accepted else old(groupError[h])
      ensures forall h | 0 <= h < errorText.Length ::
        errorText[h] == if h == emailGroup && hasErrorElement[h] then ErrorText(c) else old(errorText[h])
    {
      match c
      case Missing => ShowError(emailGroup, RequiredMessage);
      case Malformed => ShowError(emailGroup, InvalidMessage);
      case Accepted => ClearError(emailGroup);
    }

    /** The email field loses focus: only the email group's error changes,
        according to the decision on the trimmed value. */
    method Blur()
      requires Valid()
      modifies this`emailFocused, groupError, errorText
      ensures Valid() && !emailFocused
      ensures forall h | 0 <= h < groupError.Length ::
        groupError[h] == if h == emailGroup then CheckEmail(email) != Accepted else old(groupError[h])
      ensures forall h | 0 <= h < errorText.Length ::
        errorText[h] ==
          if h == emailGroup && hasErrorElement[h] then ErrorText(CheckEmail(email)) else old(errorText[h])
    {
      emailFocused := false;
      ApplyCheck(CheckEmail(email));
    }

    /** Clear the error of every form group, in order. */
    method ClearAllErrors()
      requires Valid()
      modifies groupError, errorText
      ensures forall g | 0 <= g < groupError.Length :: !groupError[g]
      ensures forall g | 0 <= g < errorText.Length ::
        errorText[g] == if hasErrorElement[g] then "" else old(errorText[g])
    {
      var g := 0;
      while g < groupError.Length
        invariant 0 <= g <= groupError.Length
        invariant forall h | 0 <= h < g :: !groupError[h]
        invariant forall h | 0 <= h < errorText.Length ::
          errorText[h] == if h < g && hasErrorElement[h] then "" else old(errorText[h])
      {
        ClearError(g);
        g := g + 1;
      }
    }

    /** The error part of the submit handler: clear every group's error,
        then show the email group's error unless the email was accepted.
        Afterwards at most the email group shows an error, and it does
        exactly when the email was rejected. */
    method CheckAllGroups(c: FieldCheck)
      requires Valid()
      modifies groupError, errorText
      ensures forall g | 0 <= g < groupError.Length ::
        groupError[g] <==> c != Accepted && g == emailGroup
      ensures forall g | 0 <= g < errorText.Length ::
        errorText[g] == if !hasErrorElement[g] then old(errorText[g])
                        else if g == emailGroup then ErrorText(c) else ""
    {
      ClearAllErrors();
      if c != Accepted {
        ApplyCheck(c);
      }
    }

    /** The submit handler. An email that is missing or malformed leaves
        exactly one error shown, on the email group, focuses the email field,
        and starts nothing: the button keeps its state and label. An accepted
        email leaves no error shown, disables the button, sets the busy label,
        saves the label it replaced and schedules the post. The handler only
        runs while the button is enabled: a disabled default button blocks
        both its click and implicit submission. */
    method Submit()
      requires Valid() && phase == Idle
      modifies this`emailFocused, this`phase, this`buttonDisabled, this`buttonLabel,
        this`savedLabel, groupError, errorText
      ensures Valid()
      ensures forall g | 0 <= g < groupError.Length ::
        groupError[g] <==> CheckEmail(email) != Accepted && g == emailGroup
      ensures forall g | 0 <= g < errorText.Length ::
        errorText[g] == if !hasErrorElement[g] then old(errorText[g])
                        else if g == emailGroup then ErrorText(CheckEmail(email)) else ""
      ensures CheckEmail(email) != Accepted ==>
        && emailFocused && phase == Idle
        && !buttonDisabled && buttonLabel == old(buttonLabel)
      ensures CheckEmail(email) == Accepted ==>
        && emailFocused == old(emailFocused) && phase == Scheduled
        && buttonDisabled && buttonLabel == BusyLabel
      ensures savedLabel == old(savedLabel) == old(buttonLabel)
    {
      SubmitDecided(CheckEmail(email));
    }

    /** The submit handler once the decision `c` on the email field is made:
        the same effect as `Submit`, stated in terms of `c`. */
    method SubmitDecided(c: FieldCheck)
      requires Valid() && phase == Idle
      modifies this`emailFocused, this`phase, this`buttonDisabled, this`buttonLabel,
        this`savedLabel, groupError, errorText
      ensures Valid()
      ensures forall g | 0 <= g < groupError.Length ::
        groupError[g] <==> c != Accepted && g == emailGroup
      ensures forall g | 0 <= g < errorText.Length ::
        errorText[g] == if !hasErrorElement[g] then old(errorText[g])
                        else if g == emailGroup then ErrorText(c) else ""
      ensures c != Accepted ==>
        && emailFocused && phase == Idle
        && !buttonDisabled && buttonLabel == old(buttonLabel)
      ensures c == Accepted ==>
        && emailFocused == old(emailFocused) && phase == Scheduled
        && buttonDisabled && buttonLabel == BusyLabel
      ensures savedLabel == old(savedLabel) == old(buttonLabel)
    {
      CheckAllGroups(c);
      if c != Accepted {
        emailFocused := true;
        return;
      }
      savedLabel := buttonLabel;
      buttonDisabled := true;
      buttonLabel := BusyLabel;
      phase := Scheduled;
    }

    /** The 100 ms timer fires: the form's current field set is posted. */
    method SendTimerFired()
      requires Valid() && phase == Scheduled
      modifies this`phase, this`posted
      ensures Valid() && phase == Pending
      ensures posted == old(posted) + [Submission(email, name, message)]
    {
      posted := posted + [Submission(email, name, message)];
      phase := Pending;
    }

    /** showSuccessMessage: the banner gets `visible` and `aria-hidden`
        "false". */
    method ShowSuccessMessage()
      modifies this`bannerVisible, this`bannerAriaHidden
      ensures bannerVisible && bannerAriaHidden == "false"
    {
      bannerVisible := true;
      bannerAriaHidden := "false";
    }

    /** The post settles with a response (of any status): the banner is
        shown; the button stays disabled until the reset timer. */
    method FetchResolved()
      requires Valid() && phase == Pending
      modifies this`phase, this`bannerVisible, this`bannerAriaHidden
      ensures Valid() && phase == Succeeded
      ensures bannerVisible && bannerAriaHidden == "false"
      ensures buttonDisabled && buttonLabel == BusyLabel
    {
      ShowSuccessMessage();
      phase := Succeeded;
    }

    /** The post fails on the network: the button is re-enabled with the
        saved label, no error is shown and the banner stays hidden. */
    method FetchRejected()
      requires Valid() && phase == Pending
      modifies this`phase, this`buttonDisabled, this`buttonLabel
      ensures Valid() && phase == Idle
      ensures !buttonDisabled && buttonLabel == savedLabel
      ensures !bannerVisible && bannerAriaHidden == "true"
    {
      buttonDisabled := false;
      buttonLabel := savedLabel;
      phase := Idle;
    }

    /** The 1500 ms timer fires: the fields are reset to their empty
        defaults, the button is re-enabled with the saved label, the email
        field is focused and the banner is hidden again. Error states are not
        touched. */
    method ResetTimerFired()
      requires Valid() && phase == Succeeded
      modifies this`email, this`name, this`message, this`buttonDisabled, this`buttonLabel,
        this`emailFocused, this`bannerVisible, this`bannerAriaHidden, this`phase
      ensures Valid() && phase == Idle
      ensures email == name == message == ""
      ensures !buttonDisabled && buttonLabel == savedLabel && emailFocused
      ensures !bannerVisible && bannerAriaHidden == "true"
    {
      email, name, message := "", "", "";
      buttonDisabled := false;
      buttonLabel := savedLabel;
      emailFocused := true;
      bannerVisible := false;
      bannerAriaHidden := "true";
      phase := Idle;
    }
  }

  /** A full successful submission of an address the field check accepts,
      from the page at load: exactly one post is sent, carrying the address
      as typed and the empty name and message; after the reset the fields
      are empty again, the button is enabled with its original label and the
      banner is hidden. */
  method SuccessfulSubmission(address: string, initialLabel: string)
      returns (sent: seq<Submission>, finalLabel: string, enabled: bool, bannerShown: bool)
    requires CheckEmail(address) == Accepted
    ensures sent == [Submission(address, "", "")]
    ensures finalLabel == initialLabel && enabled && !bannerShown
  {
    var form := new Form([true, true, true], 0, initialLabel);
    form.Input(EmailField, address);
    StartSubmission(form);
    CompleteSubmission(form);
    sent, finalLabel, enabled, bannerShown := form.posted, form.buttonLabel, !form.buttonDisabled, form.bannerVisible;
  }

  /** Submitting an idle form whose email field holds an accepted address
      schedules the post, leaves no error shown, saves the label and sends
      nothing yet. */
  method StartSubmission(form: Form)
    requires form.Valid() && form.phase == Idle
    requires CheckEmail(form.email) == Accepted
    modifies form, form.groupError, form.errorText
    ensures form.Valid() && form.phase == Scheduled && form.posted == old(form.posted)
    ensures form.email == old(form.email) && form.name == old(form.name)
    ensures form.message == old(form.message) && form.savedLabel == old(form.buttonLabel)
    ensures forall g | 0 <= g < form.groupError.Length :: !form.groupError[g]
  {
    form.Submit();
  }

  /** The rest of an accepted submission, from the scheduled post: one post
      is sent, carrying the field values at send time; the banner shows; the
      reset empties the fields, restores the saved label and hides the
      banner again. */
  method CompleteSubmission(form: Form)
    requires form.Valid() && form.phase == Scheduled
    modifies form
    ensures form.Valid() && form.phase == Idle
    ensures form.posted == old(form.posted) + [Submission(old(form.email), old(form.name), old(form.message))]
    ensures form.email == form.name == form.message == "" && form.emailFocused
    ensures !form.buttonDisabled && form.buttonLabel == old(form.savedLabel)
    ensures !form.bannerVisible && form.bannerAriaHidden == "true"
  {
    form.SendTimerFired();
    form.FetchResolved();
    assert form.bannerVisible && form.bannerAriaHidden == "false";
    form.ResetTimerFired();
  }

  /** A submission of an address the field check rejects, from the page at
      load, shows exactly one error, on the email group, with the message of
      the decision, and never reaches the network: the button stays enabled
      and no post is sent. */
  method RejectedSubmission(address: string, initialLabel: string)
      returns (errors: seq<bool>, text: string, enabled: bool, sent: seq<Submission>)
    requires CheckEmail(address) != Accepted
    ensures errors == [true, false, false]
    ensures text == ErrorText(CheckEmail(address)) && text != ""
    ensures enabled && sent == []
  {
    var form := new Form([true, true, true], 0, initialLabel);
    form.Input(EmailField, address);
    assert form.email == address && form.emailGroup == 0 && form.hasErrorElement[0];
    RejectSubmit(form);
    errors := form.groupError[..];
    assert errors == [errors[0], errors[1], errors[2]];
    text := form.errorText[0];
    enabled := !form.buttonDisabled;
    sent := form.posted;
  }

  /** Submitting an idle form whose email field holds a rejected address:
      the email group is the only one showing an error, with the decision's
      text where it has an error element; the field is focused; the button
      keeps its state and label; nothing is sent. */
  method RejectSubmit(form: Form)
    requires form.Valid() && form.phase == Idle && CheckEmail(form.email) != Accepted
    modifies form, form.groupError, form.errorText
    ensures form.Valid() && form.phase == Idle && form.posted == old(form.posted)
    ensures form.email == old(form.email) && form.name == old(form.name) && form.message == old(form.message)
    ensures !form.buttonDisabled && form.buttonLabel == old(form.buttonLabel) && form.emailFocused
    ensures forall g | 0 <= g < form.groupError.Length :: form.groupError[g] <==> g == form.emailGroup
    ensures form.hasErrorElement[form.emailGroup] ==>
      form.errorText[form.emailGroup] == ErrorText(CheckEmail(form.email))
  {
    form.Submit();
  }
}
