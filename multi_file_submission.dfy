/**
 * `MultiFileSubmission`: a job made of several files run by a `run` script,
 * in the service's fixed multi-file language (id 89). Its `encode_to_base64`
 * refuses a mapping without a `run` entry before building anything.
 */
module MultiFileSubmission {
  import opened Wrappers
  import Utf8
  import Base64Utils
  import opened ZipUtils
  import opened SubmissionFields

  /** `Literal[89]`: the only language id a multi-file submission can carry. */
  type LanguageId = id: int | id == 89 witness 89

  /** The default of `language_id`, and its only value. */
  const MultiFileLanguageId: LanguageId := 89

  /** The exact key that must name the run script. */
  const RunScript: string := "run"

  /** The `ValueError` that `encode_to_base64` raises. */
  datatype ValueError = ValueError(message: string)

  const MissingRunScript: string := "run script should be present in additional files"

  /**
   * The fields of a multi-file submission. `Files` is what `additional_files`
   * holds (a file mapping before encoding, the archive text after) and
   * `Limits` stands for the resource limits of `BaseSubmission`.
   */
  datatype Submission<Files, Limits> = Submission(
    languageId: LanguageId,
    stdin: Option<string>,
    expectedOutput: Option<string>,
    additionalFiles: Files,
    limits: Limits)

  /**
   * `encode_to_base64`: fails, producing nothing, exactly when no file is
   * named `run` (an exact key, not a suffix or a path ending); otherwise a
   * copy whose `stdin` and `expected_output` are encoded when present and
   * whose `additional_files` is the archive of the whole mapping, which is
   * then never empty. The language and the limits are copied unchanged.
   */
  function EncodeToBase64<Limits>(sub: Submission<FileMap, Limits>, zip: ArchiveBuilder)
    : (r: Result<Submission<string, Limits>, ValueError>)
    ensures r.Err? <==> !HasPath(sub.additionalFiles, RunScript)
    ensures r.Err? ==> r.error == ValueError(MissingRunScript)
    ensures r.Ok? ==> |sub.additionalFiles| > 0 && r.value.additionalFiles == zip(sub.additionalFiles)
    ensures r.Ok? ==> (r.value.stdin.Some? <==> sub.stdin.Some?)
    ensures r.Ok? && sub.stdin.Some? ==> r.value.stdin.value == Base64Utils.Base64Encode(sub.stdin.value)
    ensures r.Ok? ==> (r.value.expectedOutput.Some? <==> sub.expectedOutput.Some?)
    ensures r.Ok? && sub.expectedOutput.Some? ==>
      r.value.expectedOutput.value == Base64Utils.Base64Encode(sub.expectedOutput.value)
    ensures r.Ok? ==> r.value.languageId == sub.languageId == MultiFileLanguageId && r.value.limits == sub.limits
  {
    if !HasPath(sub.additionalFiles, RunScript) then
      Err(ValueError(MissingRunScript))
    else
      EncodeIfTruthyEncodesEveryValue(sub.stdin);
      EncodeIfTruthyEncodesEveryValue(sub.expectedOutput);
      Ok(Submission(
        languageId := sub.languageId,
        stdin := EncodeIfTruthy(sub.stdin),
        expectedOutput := EncodeIfTruthy(sub.expectedOutput),
        additionalFiles := zip(sub.additionalFiles),
        limits := sub.limits))
  }

  /**
   * The run script must be keyed exactly `run`: files named `run.sh` and
   * `scripts/run` are not taken for it.
   */
  lemma RunKeyIsExact<Limits>(sub: Submission<FileMap, Limits>, zip: ArchiveBuilder)
    requires sub.additionalFiles == [("run.sh", ZipUtils.Text("")), ("scripts/run", ZipUtils.Text(""))]
    ensures EncodeToBase64(sub, zip) == Err(ValueError(MissingRunScript))
  {
  }

  /** An empty mapping has no run script, so it is refused. */
  lemma EmptyFilesRefused<Limits>(sub: Submission<FileMap, Limits>, zip: ArchiveBuilder)
    requires sub.additionalFiles == []
    ensures EncodeToBase64(sub, zip).Err?
  {
  }

  /**
   * On success every text field of the wire form decodes back to the field
   * it came from, with U+0000 removed.
   */
  lemma EncodedTextDecodes<Limits>(sub: Submission<FileMap, Limits>, zip: ArchiveBuilder)
    requires EncodeToBase64(sub, zip).Ok?
    ensures var r := EncodeToBase64(sub, zip).value;
      && (sub.stdin.Some? ==>
            Base64Utils.Base64Decode(r.stdin.value) == Ok(Utf8.WithoutNulChars(sub.stdin.value)))
      && (sub.expectedOutput.Some? ==>
            Base64Utils.Base64Decode(r.expectedOutput.value) == Ok(Utf8.WithoutNulChars(sub.expectedOutput.value)))
  {
    if sub.stdin.Some? {
      Base64Utils.RoundTrip(sub.stdin.value);
    }
    if sub.expectedOutput.Some? {
      Base64Utils.RoundTrip(sub.expectedOutput.value);
    }
  }
}
