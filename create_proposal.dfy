/**
 * components/create-proposal.tsx: the proposal form's state (heading,
 * description, the option list and the option being typed) and its three
 * handlers: add an option, remove an option, submit.
 */
module ProposalForm {
  import opened Wrappers
  import opened Text
  import opened Lists

  const INITIAL_OPTIONS: seq<string> := ["Yes", "No"]

  /** What `handleSubmit` hands to `createProposal`: the untrimmed heading and description. */
  datatype ProposalRequest = ProposalRequest(heading: string, description: string, options: seq<string>)

  /** A form's option list: never empty, every option visible, and no longer than the maximum once it has grown past the two initial options. */
  predicate OptionsValid(options: seq<string>, maxOptions: nat)
  {
    1 <= |options| && (|options| <= |INITIAL_OPTIONS| || |options| <= maxOptions)
    && forall i :: 0 <= i < |options| ==> HasVisible(options[i])
  }

  /** `handleSubmit`'s guard. */
  predicate Submittable(heading: string, description: string, options: seq<string>, maxOptions: nat)
  {
    HasVisible(heading) && HasVisible(description) && 0 < |options| <= maxOptions
  }

  /** A trimmed non-empty option is itself visible. */
  lemma TrimmedIsVisible(s: string)
    requires HasVisible(s)
    ensures HasVisible(Trim(s))
  {
    assert !IsSpace(Trim(s)[0]);
  }

  class CreateProposalForm {
    /** `GOVERNANCE_MAX_OPTIONS`, defined outside the client code shown. */
    const maxOptions: nat
    var heading: string
    var description: string
    var options: seq<string>
    var newOption: string

    predicate Valid()
      reads this
    {
      OptionsValid(options, maxOptions)
    }

    /** The form as it first renders. */
    constructor(maxOptions: nat)
      ensures this.maxOptions == maxOptions
      ensures heading == "" && description == "" && options == INITIAL_OPTIONS && newOption == ""
      ensures Valid()
    {
      this.maxOptions := maxOptions;
      heading := "";
      description := "";
      options := INITIAL_OPTIONS;
      newOption := "";
      new;
      assert !IsSpace(options[0][0]) && !IsSpace(options[1][0]);
    }

    /**
     * `handleAddOption`: a visible new option is trimmed, appended and the
     * input cleared, while the list is below the maximum; otherwise nothing
     * changes.
     */
    method AddOption()
      requires Valid()
      modifies this
      ensures Valid()
      ensures heading == old(heading) && description == old(description)
      ensures |old(options)| <= maxOptions ==> |options| <= maxOptions
      ensures HasVisible(old(newOption)) && |old(options)| < maxOptions
              ==> options == old(options) + [Trim(old(newOption))] && newOption == ""
      ensures !(HasVisible(old(newOption)) && |old(options)| < maxOptions)
              ==> options == old(options) && newOption == old(newOption)
    {
      var trimmed := Trim(newOption);
      if trimmed != [] && |options| < maxOptions {
        TrimmedIsVisible(newOption);
        options := options + [trimmed];
        newOption := "";
      }
    }

    /**
     * `handleRemoveOption`: drops the option at `index` (an index outside the
     * list drops nothing), but never the last remaining one.
     */
    method RemoveOption(index: int)
      requires Valid()
      modifies this
      ensures Valid()
      ensures heading == old(heading) && description == old(description) && newOption == old(newOption)
      ensures |old(options)| > 1 ==> options == WithoutIndex(old(options), index)
      ensures |old(options)| <= 1 ==> options == old(options)
    {
      if |options| > 1 {
        var before := options;
        options := WithoutIndex(options, index);
        if 0 <= index < |before| {
          WithoutIndexShape(before, index);
          forall i | 0 <= i < |options|
            ensures HasVisible(options[i])
          {
            if i < index {
              assert options[i] == before[i];
            } else {
              assert options[i] == before[i + 1];
            }
          }
        }
      }
    }

    /** `handleSubmit`'s validation: the request sent, or None when the form is rejected. */
    function Request(): (r: Option<ProposalRequest>)
      reads this
      ensures r.Some? <==> Submittable(heading, description, options, maxOptions)
      ensures r.Some? ==> r.value == ProposalRequest(heading, description, options)
    {
      if HasVisible(heading) && HasVisible(description) && 0 < |options| <= maxOptions
      then Some(ProposalRequest(heading, description, options))
      else None
    }

    /** After `createProposal` returns: a signature resets the form, a failure keeps it. */
    method Settle(signature: Option<string>)
      requires Valid()
      modifies this
      ensures Valid()
      ensures signature.Some? ==> heading == "" && description == "" && options == INITIAL_OPTIONS && newOption == ""
      ensures signature.None? ==> heading == old(heading) && description == old(description)
                                  && options == old(options) && newOption == old(newOption)
    {
      if signature.Some? {
        heading := "";
        description := "";
        options := INITIAL_OPTIONS;
        newOption := "";
        assert !IsSpace(options[0][0]) && !IsSpace(options[1][0]);
      }
    }
  }
}
