/**
 * `SingleFileSubmission`: one source file in a given language, with the
 * optional inputs inherited from `BaseSubmission` and optional extra files.
 * `encode_to_base64` builds the wire form as a new value; it never fails.
 */
module SingleFileSubmission {
  import opened Wrappers
  import Utf8
  import Base64Utils
  import opened ZipUtils
  import opened SubmissionFields

  /**
   * The fields of a single-file submission. `Files` is what `additional_files`
   * holds (a file mapping before encoding, the archive text after) and
   * `Limits` stands for the resource limits of `BaseSubmission`, which
   * encoding copies without looking at them.
   */
  datatype Submission<Files, Limits> = Submission(
    sourceCode: string,
    languageId: int,
    stdin: Option<string>,
    expectedOutput: Option<string>,
    additionalFiles: Option<Files>,
    limits: Limits)

  /**
   * `encode_to_base64`: a copy whose `source_code` is always encoded, whose
   * `stdin` and `expected_output` are encoded when present (`""` stays `""`,
   * which is its own encoding) and whose `additional_files` is the archive
   * of a non-empty mapping, or `None` for an empty or absent one. The
   * language and the limits are copied unchanged.
   */
  function EncodeToBase64<Limits>(sub: Submission<FileMap, Limits>, zip: ArchiveBuilder)
    : (r: Submission<string, Limits>)
    ensures r.sourceCode == Base64Utils.Base64Encode(sub.sourceCode)
    ensures r.stdin.Some? <==> sub.stdin.Some?
    ensures sub.stdin.Some? ==> r.stdin.value == Base64Utils.Base64Encode(sub.stdin.value)
    ensures r.expectedOutput.Some? <==> sub.expectedOutput.Some?
    ensures sub.expectedOutput.Some? ==> r.expectedOutput.value == Base64Utils.Base64Encode(sub.expectedOutput.value)
    ensures r.additionalFiles.Some? <==> (sub.additionalFiles.Some? && |sub.additionalFiles.value| > 0)
    ensures r.additionalFiles.Some? ==> r.additionalFiles.value == zip(sub.additionalFiles.value)
    ensures r.languageId == sub.languageId && r.limits == sub.limits
  {
    EncodeIfTruthyEncodesEveryValue(sub.stdin);
    EncodeIfTruthyEncodesEveryValue(sub.expectedOutput);
    Submission(
      sourceCode := Base64Utils.Base64Encode(sub.sourceCode),
      languageId := sub.languageId,
      stdin := EncodeIfTruthy(sub.stdin),
      expectedOutput := EncodeIfTruthy(sub.expectedOutput),
      additionalFiles :=
        if sub.additionalFiles.Some? && |sub.additionalFiles.value| > 0
        then Some(zip(sub.additionalFiles.value)) else None,
      limits := sub.limits)
  }

  /**
   * Every text field of the wire form decodes back to the field it came
   * from, with U+0000 removed: the service reads what the caller wrote.
   */
  lemma EncodedTextDecodes<Limits>(sub: Submission<FileMap, Limits>, zip: ArchiveBuilder)
    ensures var r := EncodeToBase64(sub, zip);
      && Base64Utils.Base64Decode(r.sourceCode) == Ok(Utf8.WithoutNulChars(sub.sourceCode))
      && (sub.stdin.Some? ==>
            Base64Utils.Base64Decode(r.stdin.value) == Ok(Utf8.WithoutNulChars(sub.stdin.value)))
      && (sub.expectedOutput.Some? ==>
            Base64Utils.Base64Decode(r.expectedOutput.value) == Ok(Utf8.WithoutNulChars(sub.expectedOutput.value)))
  {
    Base64Utils.RoundTrip(sub.sourceCode);
    if sub.stdin.Some? {
      Base64Utils.RoundTrip(sub.stdin.value);
    }
    if sub.expectedOutput.Some? {
      Base64Utils.RoundTrip(sub.expectedOutput.value);
    }
  }

  /**
   * Two submissions with the same files that encode alike are the same
   * submission: encoding the texts loses nothing.
   */
  lemma EncodeInjective<Limits>(a: Submission<FileMap, Limits>, b: Submission<FileMap, Limits>, zip: ArchiveBuilder)
    requires a.additionalFiles == b.additionalFiles
    requires EncodeToBase64(a, zip) == EncodeToBase64(b, zip)
    ensures a == b
  {
    Base64Utils.EncodeInjective(a.sourceCode, b.sourceCode);
    if a.stdin.Some? {
      Base64Utils.EncodeInjective(a.stdin.value, b.stdin.value);
    }
    if a.expectedOutput.Some? {
      Base64Utils.EncodeInjective(a.expectedOutput.value, b.expectedOutput.value);
    }
  }
}
