/**
  The contact form's submit handling: validation feedback blocks inserted at the top of
  the form (`showFormErrors`, `showFormSuccess`), and the simulated submission that
  disables the submit button, relabels it, and restores it when the delay ends
  (`submitForm`).
 */
module ContactForm {
  import opened JsText
  import opened FormValidation

  /**
    A feedback block at the top of the form: the list of validation messages, or the
    thank-you note. A success block carries a serial so that its own removal timer can
    find it.
   */
  datatype Feedback = ErrorBlock(messages: seq<string>) | SuccessBlock(serial: nat)

  /** The submit button's `textContent` and `disabled` flag. */
  datatype Button = Button(text: JsString, disabled: bool)

  const SendingLabel: JsString := Js("Sending...")

  /** The success blocks of `blocks`, in order. */
  function Successes(blocks: seq<Feedback>): (r: seq<Feedback>)
    ensures |r| <= |blocks|
    ensures forall b :: b in r <==> b in blocks && b.SuccessBlock?
    decreases |blocks|
  {
    if blocks == [] then []
    else
      var last := blocks[|blocks| - 1];
      Successes(blocks[..|blocks| - 1]) + (if last.SuccessBlock? then [last] else [])
  }

  /** `blocks` without the success block numbered `serial`. */
  function WithoutSuccess(blocks: seq<Feedback>, serial: nat): (r: seq<Feedback>)
    ensures |r| <= |blocks|
    ensures forall b :: b in r <==> b in blocks && b != SuccessBlock(serial)
    decreases |blocks|
  {
    if blocks == [] then []
    else
      var last := blocks[|blocks| - 1];
      WithoutSuccess(blocks[..|blocks| - 1], serial) + (if last == SuccessBlock(serial) then [] else [last])
  }

  /**
    The shapes the top of the form can take: at most one error block, which then comes
    first, and at most one success block, which then comes last.
   */
  predicate WellFormed(blocks: seq<Feedback>) {
    && |blocks| <= 2
    && (forall i :: 0 < i < |blocks| ==> blocks[i].SuccessBlock?)
    && (|blocks| == 2 ==> blocks[0].ErrorBlock?)
  }

  /** `showFormErrors` keeps every success block, in order, and yields a well-formed top. */
  lemma ShowErrorsKeepsSuccesses(blocks: seq<Feedback>, messages: seq<string>)
    requires WellFormed(blocks)
    ensures Successes([ErrorBlock(messages)] + Successes(blocks)) == Successes(blocks)
    ensures WellFormed([ErrorBlock(messages)] + Successes(blocks))
  {
    var kept := Successes(blocks);
    AtMostOneSuccess(blocks);
    SuccessesIdempotent(blocks);
    SuccessesCons(ErrorBlock(messages), kept);
    if kept != [] {
      assert kept[0] in kept;
      assert [ErrorBlock(messages)] + kept == [ErrorBlock(messages), kept[0]];
    }
  }

  /** A well-formed top holds at most one success block. */
  lemma AtMostOneSuccess(blocks: seq<Feedback>)
    requires WellFormed(blocks)
    ensures |Successes(blocks)| <= 1
  {
    if |blocks| == 2 {
      assert blocks[..1][..0] == [];
      assert Successes(blocks[..1]) == [];
    }
  }

  lemma {:induction false} SuccessesIdempotent(blocks: seq<Feedback>)
    ensures Successes(Successes(blocks)) == Successes(blocks)
    decreases |blocks|
  {
    if blocks != [] {
      var init := blocks[..|blocks| - 1];
      var last := blocks[|blocks| - 1];
      SuccessesIdempotent(init);
      if last.SuccessBlock? {
        assert Successes(blocks) == Successes(init) + [last];
        SuccessesSnoc(Successes(init), last);
      } else {
        assert Successes(blocks) == Successes(init);
      }
    }
  }

  lemma {:induction false} SuccessesSnoc(blocks: seq<Feedback>, b: Feedback)
    ensures Successes(blocks + [b]) == Successes(blocks) + (if b.SuccessBlock? then [b] else [])
  {
    assert (blocks + [b])[..|blocks|] == blocks;
  }

  lemma {:induction false} SuccessesCons(b: Feedback, blocks: seq<Feedback>)
    ensures Successes([b] + blocks) == (if b.SuccessBlock? then [b] else []) + Successes(blocks)
    decreases |blocks|
  {
    if blocks != [] {
      var init := blocks[..|blocks| - 1];
      var last := blocks[|blocks| - 1];
      assert ([b] + blocks)[..|blocks|] == [b] + init;
      SuccessesCons(b, init);
    } else {
      assert [b] + blocks == [] + [b];
      SuccessesSnoc([], b);
    }
  }

  /** A success block's timer never disturbs the well-formed shape of the top of the form. */
  lemma WithoutSuccessKeepsShape(blocks: seq<Feedback>, serial: nat)
    requires WellFormed(blocks)
    ensures WellFormed(WithoutSuccess(blocks, serial))
  {
    var r := WithoutSuccess(blocks, serial);
    if |r| == 2 {
      assert |blocks| == 2;
      WithoutSuccessKeepsAll(blocks, serial);
    }
  }

  lemma {:induction false} WithoutSuccessKeepsAll(blocks: seq<Feedback>, serial: nat)
    requires SuccessBlock(serial) !in blocks
    ensures WithoutSuccess(blocks, serial) == blocks
    decreases |blocks|
  {
    if blocks != [] {
      WithoutSuccessKeepsAll(blocks[..|blocks| - 1], serial);
    }
  }

  /** The form's feedback area and submit button, changed by the submit handler and its timers. */
  class Form {
    var blocks: seq<Feedback>
    var button: Button
    /** The label each scheduled completion captured as `originalText`, oldest first. */
    var savedLabels: seq<JsString>
    /** The serial the next success block receives. */
    var nextSerial: nat

    ghost predicate Valid()
      reads this
    {
      && WellFormed(blocks)
      && (forall b :: b in blocks && b.SuccessBlock? ==> b.serial < nextSerial)
    }

    constructor (text: JsString)
      ensures Valid() && blocks == [] && button == Button(text, false)
      ensures savedLabels == [] && nextSerial == 0
    {
      blocks := [];
      button := Button(text, false);
      savedLabels := [];
      nextSerial := 0;
    }

    /**
      `showFormErrors`: every existing error block is removed, success blocks stay, and
      one new error block listing `errors` goes in front of everything else.
     */
    method ShowFormErrors(errors: seq<string>)
      requires Valid()
      modifies this
      ensures Valid()
      ensures blocks == [ErrorBlock(errors)] + Successes(old(blocks))
      ensures button == old(button) && savedLabels == old(savedLabels) && nextSerial == old(nextSerial)
    {
      var kept := [];
      var i := 0;
      while i < |blocks|
        invariant 0 <= i <= |blocks|
        invariant kept == Successes(blocks[..i])
      {
        assert blocks[..i + 1][..i] == blocks[..i];
        if blocks[i].SuccessBlock? {
          kept := kept + [blocks[i]];
        }
        i := i + 1;
      }
      assert blocks[..i] == blocks;
      ShowErrorsKeepsSuccesses(blocks, errors);
      blocks := [ErrorBlock(errors)] + kept;
    }

    /**
      `showFormSuccess`: every error and success block is removed and a single new
      success block is put in front. The serial returned names it for its removal timer.
     */
    method ShowFormSuccess() returns (serial: nat)
      requires Valid()
      modifies this
      ensures Valid()
      ensures serial == old(nextSerial) && nextSerial == serial + 1
      ensures blocks == [SuccessBlock(serial)]
      ensures button == old(button) && savedLabels == old(savedLabels)
    {
      serial := nextSerial;
      nextSerial := nextSerial + 1;
      blocks := [SuccessBlock(serial)];
    }

    /** The five-second timer of the success block numbered `serial`. */
    method RemoveSuccess(serial: nat)
      requires Valid()
      modifies this
      ensures Valid()
      ensures blocks == WithoutSuccess(old(blocks), serial)
      ensures button == old(button) && savedLabels == old(savedLabels) && nextSerial == old(nextSerial)
    {
      WithoutSuccessKeepsShape(blocks, serial);
      blocks := WithoutSuccess(blocks, serial);
    }

    /**
      `validateForm`: collect the messages of the failing checks; when there are any,
      show them and report failure.
     */
    method ValidateForm(data: FormData) returns (ok: bool)
      requires Valid()
      modifies this
      ensures Valid()
      ensures ok <==> forall c :: !Violated(c, data)
      ensures ok ==> blocks == old(blocks)
      ensures !ok ==> blocks == [ErrorBlock(FormErrors(data))] + Successes(old(blocks))
      ensures button == old(button) && savedLabels == old(savedLabels) && nextSerial == old(nextSerial)
    {
      var errors := FormErrors(data);
      if |errors| > 0 {
        ShowFormErrors(errors);
        return false;
      }
      return true;
    }

    /**
      `submitForm`, up to its delay: the current label is captured for the completion,
      and the button reads "Sending..." and is disabled.
     */
    method SubmitForm()
      requires Valid()
      modifies this
      ensures Valid()
      ensures savedLabels == old(savedLabels) + [old(button).text]
      ensures button == Button(SendingLabel, true)
      ensures blocks == old(blocks) && nextSerial == old(nextSerial)
    {
      savedLabels := savedLabels + [button.text];
      button := Button(SendingLabel, true);
    }

    /**
      The end of the simulated two-second request (the oldest one still scheduled):
      show the success block, put the captured label back and enable the button.
     */
    method FinishSubmission() returns (serial: nat)
      requires Valid() && savedLabels != []
      modifies this
      ensures Valid()
      ensures blocks == [SuccessBlock(serial)] && serial == old(nextSerial)
      ensures button == Button(old(savedLabels)[0], false)
      ensures savedLabels == old(savedLabels)[1..] && nextSerial == old(nextSerial) + 1
    {
      serial := ShowFormSuccess();
      button := Button(savedLabels[0], false);
      savedLabels := savedLabels[1..];
    }

    /** The form's submit listener: validate, and submit only when nothing failed. */
    method OnSubmit(data: FormData) returns (accepted: bool)
      requires Valid()
      modifies this
      ensures Valid()
      ensures accepted <==> forall c :: !Violated(c, data)
      ensures accepted ==> blocks == old(blocks) && button == Button(SendingLabel, true)
      ensures accepted ==> savedLabels == old(savedLabels) + [old(button).text]
      ensures !accepted ==> blocks == [ErrorBlock(FormErrors(data))] + Successes(old(blocks))
      ensures !accepted ==> button == old(button) && savedLabels == old(savedLabels)
      ensures nextSerial == old(nextSerial)
    {
      accepted := ValidateForm(data);
      if accepted {
        SubmitForm();
      }
    }
  }

  /**
    A valid submission from an idle form runs to completion: the button ends up exactly
    as it was before "Sending...", and the only feedback left is the new success block.
   */
  method SubmissionRestoresButton(form: Form, data: FormData) returns (serial: nat)
    requires form.Valid() && form.savedLabels == [] && !form.button.disabled
    requires forall c :: !Violated(c, data)
    modifies form
    ensures form.Valid()
    ensures form.button == old(form.button) && form.savedLabels == []
    ensures form.blocks == [SuccessBlock(serial)]
  {
    var accepted := form.OnSubmit(data);
    serial := form.FinishSubmission();
  }
}
