/**
  The `SignUp` component of src/components/signup.js as an object: its four
  React state cells are fields, and each handler is a method that updates
  them in place. The network request of the submit handler is represented
  by the body it would send.
 */
module SignUpComponent {
  import opened JsString
  import opened SignUpForm
  import EmailPattern

  datatype Option<T> = None | Some(value: T)

  /** The JSON body of the registration request. */
  datatype RegisterRequest = RegisterRequest(userToRegister: FormData)

  class SignUp {
    var formData: FormData
    var customPreference: string
    var errors: map<Field, ErrorMessage>
    var preferencesOptions: seq<string>

    /** The four cells as one value. */
    function State(): SignUpState
      reads this
    {
      SignUpState(formData, customPreference, errors, preferencesOptions)
    }

    ghost predicate Valid()
      reads this
    {
      Invariant(State())
    }

    /** The initial state: an empty form, an empty buffer, no errors, the seed options. */
    constructor ()
      ensures State() == InitialState
      ensures Valid()
    {
      formData := EmptyForm;
      customPreference := "";
      errors := map[];
      preferencesOptions := PreferenceSeeds;
      InitialStateInvariant();
    }

    /**
      `validateInputs`: builds a fresh error map one rule at a time, stores
      it in `errors` (whatever was there before) and reports whether it is
      empty.
     */
    method ValidateInputs() returns (ok: bool)
      modifies this`errors
      ensures errors == Validate(formData)
      ensures ok <==> errors == map[]
      ensures old(Valid()) ==> Valid()
    {
      var newErrors: map<Field, ErrorMessage> := map[];
      if formData.email == "" || !EmailPattern.Test(formData.email) {
        newErrors := newErrors[Email := Message(Email)];
      }
      ghost var checked := Check(formData, map[], Email);
      assert newErrors == checked;
      if formData.password == "" || |formData.password| < MinPasswordLength {
        newErrors := newErrors[Password := Message(Password)];
      }
      checked := Check(formData, checked, Password);
      assert newErrors == checked;
      if formData.fullName == "" || |formData.fullName| < 1 {
        newErrors := newErrors[FullName := Message(FullName)];
      }
      checked := Check(formData, checked, FullName);
      assert newErrors == checked;
      if |formData.preferences| == 0 {
        newErrors := newErrors[Preferences := Message(Preferences)];
      }
      checked := Check(formData, checked, Preferences);
      assert newErrors == checked;
      if |formData.categories| == 0 {
        newErrors := newErrors[Categories := Message(Categories)];
      }
      checked := Check(formData, checked, Categories);
      assert newErrors == checked == Validate(formData);
      errors := newErrors;
      ok := |newErrors| == 0;
    }

    /**
      The guard of `handleSubmit`: when validation fails no request is built;
      otherwise the body wraps the current form.
     */
    method HandleSubmit() returns (request: Option<RegisterRequest>)
      modifies this`errors
      ensures errors == Validate(formData)
      ensures request.Some? <==> errors == map[]
      ensures request.Some? ==> request.value.userToRegister == formData
      ensures old(Valid()) ==> Valid()
    {
      var ok := ValidateInputs();
      if !ok {
        return None;
      }
      request := Some(RegisterRequest(formData));
    }

    /** `handleChange(field)`: replaces one field of the form. */
    method HandleChange(field: Field, value: Value)
      requires Fits(field, value)
      modifies this`formData
      ensures formData == WithField(old(formData), field, value)
      ensures old(Valid()) ==> Valid()
    {
      formData := WithField(formData, field, value);
    }

    /** The custom-preference input's change handler: the buffer takes the typed text. */
    method SetCustomPreference(value: string)
      modifies this`customPreference
      ensures customPreference == value
      ensures old(Valid()) ==> Valid()
    {
      customPreference := value;
    }

    /**
      `handleCustomPreferenceAdd`: with a non-blank buffer, selects its trimmed
      text, lists it as an option unless already listed, and clears the buffer.
     */
    method HandleCustomPreferenceAdd()
      modifies this`formData, this`preferencesOptions, this`customPreference
      ensures State() == AddCustomPreference(old(State()))
      ensures old(Valid()) ==> Valid()
      ensures old(preferencesOptions) <= preferencesOptions
    {
      ghost var before := State();
      var value := Trim(customPreference);
      if value != "" {
        formData := formData.(preferences := formData.preferences + [value]);
        if value !in preferencesOptions {
          preferencesOptions := preferencesOptions + [value];
        }
        assert preferencesOptions == AppendIfAbsent(before.preferencesOptions, value);
        customPreference := "";
      }
      AddCustomPreferenceSpec(before);
    }
  }
}
