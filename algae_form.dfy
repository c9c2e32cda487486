/**
 * The parameter form: its state (the form data, the validation errors shown under the fields and the
 * image preview) and the handlers that update it.
 *
 * The browser supplies what the model takes as parameters: `parseFloat` of the typed text, the file
 * picked in the file input and the data URL the file reader produces for it.
 */
module AlgaeBiofuelForm {
  import opened Wrappers
  import opened Gemini

  /** The keys of the error map. */
  datatype Field = Ph | Temperature | Volume | HarvestFrequency

  /** The three number inputs; their `name` attribute selects the field a change writes. */
  datatype NumberInput = PhInput | TemperatureInput | VolumeInput

  /** The largest accepted image, in bytes (5 MiB). */
  const MaxImageBytes: nat := 5 * 1024 * 1024

  const InitialFormData := AlgaeFormData(7.0, 25.0, 1000.0, "Weekly", None)

  function Message(f: Field): string
  {
    match f
    case Ph => "pH must be between 0 and 14"
    case Temperature => "Temperature must be between 0\U{00B0}C and 50\U{00B0}C"
    case Volume => "Volume must be greater than 0"
    case HarvestFrequency => "Please select a harvest frequency"
  }

  /** The rule a field must satisfy. */
  predicate FieldValid(d: AlgaeFormData, f: Field)
  {
    match f
    case Ph => !(d.ph < 0.0 || d.ph > 14.0)
    case Temperature => !(d.temperature < 0.0 || d.temperature > 50.0)
    case Volume => !(d.volume <= 0.0)
    case HarvestFrequency => d.harvestFrequency != ""
  }

  /** The error map validation produces: one entry, with its message, for each field whose rule fails. */
  function ValidationErrors(d: AlgaeFormData): (errors: map<Field, string>)
  {
    map f: Field | !FieldValid(d, f) :: Message(f)
  }

  /** `errors` holds, with their messages, exactly the fields of `done` whose rule fails. */
  ghost predicate Checked(d: AlgaeFormData, errors: map<Field, string>, done: set<Field>)
  {
    forall f: Field :: (f in errors <==> f in done && !FieldValid(d, f)) && (f in errors ==> errors[f] == Message(f))
  }

  lemma CheckedAllFields(d: AlgaeFormData, errors: map<Field, string>)
    requires Checked(d, errors, {Ph, Temperature, Volume, HarvestFrequency})
    ensures errors == ValidationErrors(d)
  {
  }

  /** The checks of `validateForm`, one rule after the other, collecting a message per failed rule. */
  method CollectErrors(d: AlgaeFormData) returns (newErrors: map<Field, string>)
    ensures newErrors == ValidationErrors(d)
  {
    newErrors := map[];
    if d.ph < 0.0 || d.ph > 14.0 {
      newErrors := newErrors[Ph := Message(Ph)];
    }
    assert Checked(d, newErrors, {Ph});
    if d.temperature < 0.0 || d.temperature > 50.0 {
      newErrors := newErrors[Temperature := Message(Temperature)];
    }
    assert Checked(d, newErrors, {Ph, Temperature});
    if d.volume <= 0.0 {
      newErrors := newErrors[Volume := Message(Volume)];
    }
    assert Checked(d, newErrors, {Ph, Temperature, Volume});
    if d.harvestFrequency == "" {
      newErrors := newErrors[HarvestFrequency := Message(HarvestFrequency)];
    }
    CheckedAllFields(d, newErrors);
  }

  /** The ranges the form accepts, bounds included. */
  predicate InRange(d: AlgaeFormData)
  {
    && 0.0 <= d.ph <= 14.0
    && 0.0 <= d.temperature <= 50.0
    && d.volume > 0.0
    && |d.harvestFrequency| > 0
  }

  /** Validation passes exactly when every parameter is in range. */
  lemma ValidIffInRange(d: AlgaeFormData)
    ensures ValidationErrors(d) == map[] <==> InRange(d)
  {
    if ValidationErrors(d) == map[] {
      assert Ph !in ValidationErrors(d);
      assert Temperature !in ValidationErrors(d);
      assert Volume !in ValidationErrors(d);
      assert HarvestFrequency !in ValidationErrors(d);
    }
  }

  /** The error map holds exactly the fields whose rule fails, each with its own message. */
  lemma ValidationErrorsExact(d: AlgaeFormData, f: Field)
    ensures f in ValidationErrors(d) <==> !FieldValid(d, f)
    ensures f in ValidationErrors(d) ==> ValidationErrors(d)[f] == Message(f)
  {
  }

  /** The untouched form is valid. */
  lemma InitialFormDataValid()
    ensures InRange(InitialFormData) && ValidationErrors(InitialFormData) == map[]
  {
    ValidIffInRange(InitialFormData);
  }

  function NumberValue(d: AlgaeFormData, name: NumberInput): real
  {
    match name
    case PhInput => d.ph
    case TemperatureInput => d.temperature
    case VolumeInput => d.volume
  }

  /** The form data with the named number field set to `x`. */
  function WithNumber(d: AlgaeFormData, name: NumberInput, x: real): (r: AlgaeFormData)
  {
    match name
    case PhInput => d.(ph := x)
    case TemperatureInput => d.(temperature := x)
    case VolumeInput => d.(volume := x)
  }

  /** Setting a number field changes that field and nothing else. */
  lemma WithNumberChangesOnlyName(d: AlgaeFormData, name: NumberInput, x: real)
    ensures NumberValue(WithNumber(d, name, x), name) == x
    ensures forall other :: other != name ==> NumberValue(WithNumber(d, name, x), other) == NumberValue(d, other)
    ensures WithNumber(d, name, x).harvestFrequency == d.harvestFrequency
    ensures WithNumber(d, name, x).image == d.image
    ensures WithNumber(WithNumber(d, name, x), name, NumberValue(d, name)) == d
  {
  }

  /** The value a number input writes: 0 for empty text, otherwise what `parseFloat` gave. */
  function NumberInputValue(value: string, parsed: real): real
  {
    if value == "" then 0.0 else parsed
  }

  class FormState {
    var formData: AlgaeFormData
    var errors: map<Field, string>
    var imagePreview: Option<string>

    /** A preview is shown exactly when an image is selected: every handler keeps this. */
    predicate PreviewMatchesImage()
      reads this
    {
      imagePreview.Some? <==> formData.image.Some?
    }

    constructor()
      ensures formData == InitialFormData && errors == map[] && imagePreview == None
      ensures PreviewMatchesImage()
    {
      formData := InitialFormData;
      errors := map[];
      imagePreview := None;
    }

    /** `validateForm`: replaces the error map by the errors of the current data. */
    method ValidateForm() returns (valid: bool)
      requires PreviewMatchesImage()
      modifies this`errors
      ensures PreviewMatchesImage()
      ensures errors == ValidationErrors(formData)
      ensures valid <==> errors == map[]
    {
      var newErrors := CollectErrors(formData);
      errors := newErrors;
      valid := |newErrors| == 0;
    }

    /** `handleChange` on a number input: writes the named field only. */
    method HandleChange(name: NumberInput, value: string, parsed: real)
      requires PreviewMatchesImage()
      modifies this`formData
      ensures PreviewMatchesImage()
      ensures formData == WithNumber(old(formData), name, NumberInputValue(value, parsed))
    {
      var parsedValue := if value == "" then 0.0 else parsed;
      formData := WithNumber(formData, name, parsedValue);
    }

    /** `handleSelectChange`: writes the harvest frequency only. */
    method HandleSelectChange(value: string)
      requires PreviewMatchesImage()
      modifies this`formData
      ensures PreviewMatchesImage()
      ensures formData == old(formData).(harvestFrequency := value)
    {
      formData := formData.(harvestFrequency := value);
    }

    /** `handleImageChange`: a file over the limit is refused and changes nothing; an accepted file
        becomes the image and its data URL the preview; no file clears both. */
    method HandleImageChange(file: Option<ImageFile>, dataUrl: string) returns (tooLarge: bool)
      requires PreviewMatchesImage()
      modifies this`formData, this`imagePreview
      ensures PreviewMatchesImage()
      ensures tooLarge <==> file.Some? && file.value.size > MaxImageBytes
      ensures tooLarge ==> formData == old(formData) && imagePreview == old(imagePreview)
      ensures !tooLarge ==> formData == old(formData).(image := file)
      ensures !tooLarge ==> imagePreview == if file.Some? then Some(dataUrl) else None
    {
      tooLarge := false;
      if file.Some? {
        if file.value.size > MaxImageBytes {
          tooLarge := true;
          return;
        }
        imagePreview := Some(dataUrl);
        formData := formData.(image := file);
      } else {
        imagePreview := None;
        formData := formData.(image := None);
      }
    }

    /** The Remove button: clears the image and its preview. */
    method RemoveImage()
      requires PreviewMatchesImage()
      modifies this`formData, this`imagePreview
      ensures PreviewMatchesImage()
      ensures formData == old(formData).(image := None) && imagePreview == None
    {
      formData := formData.(image := None);
      imagePreview := None;
    }

    /** `handleSubmit`: validates, and hands the form data on (`onSubmit`) only when it is valid. */
    method HandleSubmit() returns (submitted: Option<AlgaeFormData>)
      requires PreviewMatchesImage()
      modifies this`errors
      ensures PreviewMatchesImage()
      ensures errors == ValidationErrors(formData)
      ensures submitted.Some? <==> InRange(formData)
      ensures submitted.Some? ==> submitted.value == formData
    {
      var valid := ValidateForm();
      ValidIffInRange(formData);
      if valid {
        submitted := Some(formData);
      } else {
        submitted := None;
      }
    }
  }
}
