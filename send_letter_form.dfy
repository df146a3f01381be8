/**
 * The submit handler of app/components/SendLetterForm.tsx: ordered input
 * checks that stop at the first failure, then one call of the parent's
 * `onSend`, then the state resets.
 *
 * The four React state cells are the fields of a `Form` object. `onSend` is
 * external: how its promise settles is an input of HandleSubmit, and the call
 * it receives is returned together with the state the form showed while the
 * call was pending.
 */
module SendLetterForm {
  import opened Wrappers
  import opened Text
  import opened AztecSdk
  import opened Aztec

  /** The form's limit, counted in UTF-16 code units (`message.length`), not in bytes. */
  const MAX_MESSAGE_LENGTH: nat := 31

  const BLANK_RECIPIENT_ERROR: string := "Please enter a recipient address"
  const INVALID_ADDRESS_ERROR: string := "Invalid Aztec address"
  const BLANK_MESSAGE_ERROR: string := "Please enter a message"
  const MESSAGE_TOO_LONG_ERROR: string := "Message too long (max 31 characters)"
  const SEND_FAILED_ERROR: string := "Failed to send letter"

  /** What a rejected onSend promise carried: an Error object, or any other value. */
  datatype Thrown = ErrorObject(message: string) | OtherValue

  /** How onSend's promise settled. */
  datatype SendResult = Resolved | Rejected(reason: Thrown)

  /** One call of onSend, with `isSending` and `error` as they were while it was pending. */
  datatype OnSendCall = OnSendCall(recipient: string, message: string, isSendingDuring: bool, errorDuring: string)

  /**
   * The message of the first failing check, in the handler's order: one of
   * the four validation messages, or None when all checks pass.
   */
  function FirstFailure(parse: AddressParser, recipient: string, message: string): (r: Option<string>)
    ensures r.Some? ==> r.value in {BLANK_RECIPIENT_ERROR, INVALID_ADDRESS_ERROR, BLANK_MESSAGE_ERROR, MESSAGE_TOO_LONG_ERROR}
  {
    if Trim(recipient) == "" then Some(BLANK_RECIPIENT_ERROR)
    else if !IsValidAztecAddress(parse, recipient) then Some(INVALID_ADDRESS_ERROR)
    else if Trim(message) == "" then Some(BLANK_MESSAGE_ERROR)
    else if Utf16Length(message) > MAX_MESSAGE_LENGTH then Some(MESSAGE_TOO_LONG_ERROR)
    else None
  }

  /** `err instanceof Error ? err.message : 'Failed to send letter'`. */
  function RejectionMessage(reason: Thrown): (m: string)
    ensures reason.ErrorObject? ==> m == reason.message
    ensures reason.OtherValue? ==> m == SEND_FAILED_ERROR
  {
    match reason
    case ErrorObject(msg) => msg
    case OtherValue => SEND_FAILED_ERROR
  }

  /**
   * Only the first failing check reports: each message is given exactly when
   * its check fails and every earlier check passes.
   */
  lemma FirstFailureOrder(parse: AddressParser, recipient: string, message: string)
    ensures FirstFailure(parse, recipient, message) == Some(BLANK_RECIPIENT_ERROR) <==> IsBlank(recipient)
    ensures FirstFailure(parse, recipient, message) == Some(INVALID_ADDRESS_ERROR) <==>
            !IsBlank(recipient) && parse(recipient).Failure?
    ensures FirstFailure(parse, recipient, message) == Some(BLANK_MESSAGE_ERROR) <==>
            !IsBlank(recipient) && parse(recipient).Success? && IsBlank(message)
    ensures FirstFailure(parse, recipient, message) == Some(MESSAGE_TOO_LONG_ERROR) <==>
            !IsBlank(recipient) && parse(recipient).Success? && !IsBlank(message) &&
            Utf16Length(message) > MAX_MESSAGE_LENGTH
  {
    TrimEmptyIffBlank(recipient);
    TrimEmptyIffBlank(message);
  }

  /**
   * The checks pass exactly when the recipient is not blank and parses as an
   * address and the message is not blank and at most 31 code units long.
   */
  lemma ChecksPassIff(parse: AddressParser, recipient: string, message: string)
    ensures FirstFailure(parse, recipient, message) == None <==>
            !IsBlank(recipient) && parse(recipient).Success? &&
            !IsBlank(message) && Utf16Length(message) <= MAX_MESSAGE_LENGTH
  {
    TrimEmptyIffBlank(recipient);
    TrimEmptyIffBlank(message);
  }

  /** A message of 31 code units passes the length check and one of 32 fails it. */
  lemma LengthBoundary(parse: AddressParser, recipient: string, message: string)
    requires FirstFailure(parse, recipient, "x") == None
    requires !IsBlank(message)
    ensures Utf16Length(message) == 31 ==> FirstFailure(parse, recipient, message) == None
    ensures Utf16Length(message) == 32 ==> FirstFailure(parse, recipient, message) == Some(MESSAGE_TOO_LONG_ERROR)
  {
    TrimEmptyIffBlank(message);
  }

  /** The limit counts code units: sixteen Christmas trees are 16 characters but 32 units, and are refused. */
  lemma LengthCountsCodeUnits()
    ensures var trees := seq(16, _ => '🎄');
            |trees| == 16 && Utf16Length(trees) == 32 && |Utf8Encode(trees)| == 64
  {
    var trees := seq(16, _ => '🎄');
    CodeUnitsOfRepeat('🎄', 16);
  }

  /**
   * The form's bound is in code units while the codec keeps 31 bytes: a
   * message whose first 31 bytes end on a character boundary followed by one
   * more character loses that character, though the form would accept it.
   * (A leading U+FEFF is consumed by TextDecoder as well.)
   */
  lemma LastCharacterPast31BytesIsDropped(kept: string, c: char)
    requires |Utf8Encode(kept)| == FIELD_BYTES
    requires kept != [] && kept[|kept| - 1] != '\0'
    ensures DecodeField(EncodeField(kept + [c]), FIELD_BYTES) == Some(WithoutLeadingBom(kept))
    ensures kept[0] != BOM ==> DecodeField(EncodeField(kept + [c]), FIELD_BYTES) == Some(kept)
  {
    var b := Utf8Encode(kept + [c]);
    Utf8EncodeAppend(kept, [c]);
    assert Truncate(b, FIELD_BYTES) == Utf8Encode(kept);
    assert Padded(b) == Padded(Utf8Encode(kept));
    TextRoundTrip(kept);
  }

  /** A concrete message the form accepts whose letter arrives shortened: ten euro signs and "ab" lose the "b". */
  lemma FormAcceptsLossyMessage(parse: AddressParser, recipient: string)
    requires FirstFailure(parse, recipient, "x") == None
    ensures var message := seq(10, _ => '€') + "ab";
            FirstFailure(parse, recipient, message) == None &&
            DecodeField(EncodeField(message), FIELD_BYTES) == Some(seq(10, _ => '€') + "a")
  {
    var message := seq(10, _ => '€') + "ab";
    ChecksPassIff(parse, recipient, "x");
    ChecksPassIff(parse, recipient, message);
    LossyMessageFitsForm();
    LossyMessageLosesLastCharacter();
  }

  /** Ten euro signs and "ab" are 12 code units and not blank. */
  lemma LossyMessageFitsForm()
    ensures var message := seq(10, _ => '€') + "ab";
            Utf16Length(message) == 12 && !IsBlank(message)
  {
    var euros := seq(10, _ => '€');
    var message := euros + "ab";
    CodeUnitsOfRepeat('€', 10);
    Utf16Append(euros, "ab");
    assert message[0] == '€' && !IsJsWhitespace('€');
  }

  /** Ten euro signs and "a" fill exactly 31 bytes, so the "b" after them is lost. */
  lemma LossyMessageLosesLastCharacter()
    ensures DecodeField(EncodeField(seq(10, _ => '€') + "ab"), FIELD_BYTES) == Some(seq(10, _ => '€') + "a")
  {
    var euros := seq(10, _ => '€');
    var kept := euros + "a";
    CodeUnitsOfRepeat('€', 10);
    Utf8EncodeAppend(euros, "a");
    assert Utf8Encode("a") == [0x61];
    assert kept + ['b'] == euros + "ab";
    assert kept[|kept| - 1] == 'a' && kept[0] == '€';
    LastCharacterPast31BytesIsDropped(kept, 'b');
  }

  class Form {
    /** AztecAddress.fromString, behind isValidAztecAddress. */
    const parse: AddressParser
    var recipient: string
    var message: string
    var isSending: bool
    var error: string

    /** Between events no send is pending; handleSubmit runs to completion before the next event. */
    ghost predicate Valid()
      reads this
    {
      !isSending
    }

    constructor (parse: AddressParser)
      ensures Valid()
      ensures this.parse == parse
      ensures recipient == "" && message == "" && !isSending && error == ""
    {
      this.parse := parse;
      recipient := "";
      message := "";
      isSending := false;
      error := "";
    }

    /** The recipient input's onChange. */
    method EditRecipient(value: string)
      requires Valid()
      modifies this
      ensures Valid()
      ensures recipient == value
      ensures message == old(message) && error == old(error)
    {
      recipient := value;
    }

    /** The message textarea's onChange. */
    method EditMessage(value: string)
      requires Valid()
      modifies this
      ensures Valid()
      ensures message == value
      ensures recipient == old(recipient) && error == old(error)
    {
      message := value;
    }

    /**
     * handleSubmit: clear the error, run the checks in order and stop at the
     * first failure, showing its message and never calling onSend; otherwise
     * mark the form as sending, call onSend once with the current inputs, clear
     * the inputs if it resolves or show its error if it rejects, and in every
     * case end with the form no longer sending.
     */
    method HandleSubmit(sendResult: SendResult) returns (call: Option<OnSendCall>)
      requires Valid()
      modifies this
      ensures Valid()
      ensures FirstFailure(parse, old(recipient), old(message)).Some? ==>
                call == None &&
                error == FirstFailure(parse, old(recipient), old(message)).value &&
                recipient == old(recipient) && message == old(message)
      ensures FirstFailure(parse, old(recipient), old(message)).None? ==>
                call == Some(OnSendCall(old(recipient), old(message), true, ""))
      ensures FirstFailure(parse, old(recipient), old(message)).None? && sendResult.Resolved? ==>
                recipient == "" && message == "" && error == ""
      ensures FirstFailure(parse, old(recipient), old(message)).None? && sendResult.Rejected? ==>
                recipient == old(recipient) && message == old(message) &&
                error == RejectionMessage(sendResult.reason)
    {
      error := "";

      ghost var failure := FirstFailure(parse, recipient, message);
      if Trim(recipient) == "" {
        error := BLANK_RECIPIENT_ERROR;
        assert failure == Some(error);
        return None;
      }
      if !IsValidAztecAddress(parse, recipient) {
        error := INVALID_ADDRESS_ERROR;
        assert failure == Some(error);
        return None;
      }
      if Trim(message) == "" {
        error := BLANK_MESSAGE_ERROR;
        assert failure == Some(error);
        return None;
      }
      if Utf16Length(message) > MAX_MESSAGE_LENGTH {
        error := MESSAGE_TOO_LONG_ERROR;
        assert failure == Some(error);
        return None;
      }
      assert failure == None;

      isSending := true;
      call := Some(OnSendCall(recipient, message, isSending, error));
      match sendResult {
        case Resolved =>
          recipient := "";
          message := "";
        case Rejected(reason) =>
          error := RejectionMessage(reason);
      }
      isSending := false;
    }
  }
}
