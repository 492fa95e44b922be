/**
 * The rule both submission kinds apply to the optional text fields they
 * inherit (`stdin` and `expected_output`): a truthy value, a non-empty
 * string, is replaced by its base64 form; `None` and `""` pass through.
 */
module SubmissionFields {
  import opened Wrappers
  import Utf8
  import Base64Utils

  /** Python truthiness of `str | None`. */
  predicate Truthy(field: Option<string>) {
    field.Some? && field.value != ""
  }

  /** `base64_encode(v) if v else v`. */
  function EncodeIfTruthy(field: Option<string>): (r: Option<string>)
    ensures r.None? <==> field.None?
    ensures field == Some("") ==> r == Some("")
    ensures Truthy(field) ==> r.value != "" && r.value != field.value
  {
    if Truthy(field) then Some(Base64Utils.Base64Encode(field.value)) else field
  }

  /**
   * Passing `""` through is the same as encoding it, since the base64 of the
   * empty text is empty: every present value is replaced by its base64 form.
   */
  lemma EncodeIfTruthyEncodesEveryValue(field: Option<string>)
    ensures field.Some? ==> EncodeIfTruthy(field) == Some(Base64Utils.Base64Encode(field.value))
  {
  }

  /** A present encoded field decodes back to the original text with its U+0000 removed. */
  lemma EncodedFieldDecodes(field: Option<string>)
    requires field.Some?
    ensures Base64Utils.Base64Decode(EncodeIfTruthy(field).value) == Ok(Utf8.WithoutNulChars(field.value))
  {
    EncodeIfTruthyEncodesEveryValue(field);
    Base64Utils.RoundTrip(field.value);
  }
}
