# Judge0 client: request encoding

This project models how the Judge0 client turns a submission into the form it
sends to the judge service, and proves properties of that model in Dafny.

- **Base64 codec** (`base64_encode` / `base64_decode` of `judge0_client.utils.base64_utils`).
  Encoding writes a text as standard base64 (section 4 of RFC 4648) of its UTF-8 octets (RFC 3629).
  Decoding base64-decodes, deletes every 0x00 octet, then reads the rest as UTF-8.
  Modules `Base64`, `Utf8`, `Bytes` and `Base64Utils`.
- **Single-file submission** (`SingleFileSubmission.encode_to_base64`).
  It returns a new submission. `source_code` is always encoded. `stdin` and `expected_output` are encoded when truthy.
  A non-empty `additional_files` mapping becomes one archive string; an empty or absent one becomes `None`.
  Everything else is copied. Module `SingleFileSubmission`.
- **Multi-file submission** (`MultiFileSubmission.encode_to_base64`).
  It raises `ValueError` unless the mapping has the exact key `"run"`.
  Otherwise it makes the same copy and always archives the files. Its language id can only be 89.
  Module `MultiFileSubmission`. The shared rule for the optional text fields is in module `SubmissionFields`.
- **Archive builder** (`create_encoded_zip`). Its output is the base64 text of a zip archive.
  Its format belongs to Python's `zipfile`, so it is a parameter of type `ZipUtils.ArchiveBuilder`.
  A mapping is a sequence of (path, text-or-bytes) entries in insertion order, with distinct paths (`ZipUtils.FileMap`).

Everything is a value. An encoded copy is a new value, so the original submission is never changed.
The source of `BaseSubmission` is not part of this model. Only `stdin` and `expected_output` are known, from their use in single_file_submission.py:21-22 and multi_file_submission.py:20-21. The model carries the other fields as an opaque type parameter `Limits` that encoding copies.
In Python the encoded copy keeps its class, but its `additional_files` then holds a `str`. The model therefore makes the type of that field a parameter:
encoding maps `Submission<FileMap, Limits>` to `Submission<string, Limits>`.

The model follows the code in two places where a reader might expect otherwise:
- The missing run script is a `ValueError` raised by `encode_to_base64`. It is not raised when the submission is constructed.
- `stdin` and `expected_output` are encoded only when truthy, so `""` passes through unencoded. This gives the same result, because the base64 of `""` is `""` (`SubmissionFields.EncodeIfTruthyEncodesEveryValue`).

## Model

| member | source | states |
|---|---|---|
| `Base64.Encode` | tests/test_utils_base64.py:9-11 | standard base64 of n octets is 4 * ceil(n / 3) characters long |
| `Base64.EncodeAlphabet` | tests/test_utils_base64.py:9-11 | the encoded text uses only the base64 alphabet and `=`, and `=` appears only in the last two positions |
| `Base64.EncodeWholeNoPad` | tests/test_utils_base64.py:9-11 | a whole number of 3-octet groups is encoded without any `=` |
| `Base64.EncodeOneLeftover` | tests/test_utils_base64.py:9-11 | one octet beyond the whole groups makes the text end in `==` |
| `Base64.EncodeTwoLeftover` | tests/test_utils_base64.py:9-11 | two octets beyond the whole groups make the text end in one symbol and a single `=` |
| `Base64.EncodePadding` | tests/test_utils_base64.py:9-11 | the number of pads is the number of octets the last group lacks: none, `==` or `=` |
| `Base64.Decode` | tests/test_utils_base64.py:20-21 | a decodable text is a whole number of quanta and yields between 3q-2 and 3q octets for q quanta |
| `Base64.DecodeEncode` | tests/test_utils_base64.py:11-13 | base64 decoding inverts encoding on every byte string |
| `Base64.EncodeInjective` | tests/test_utils_base64.py:11-13 | two byte strings with the same base64 text are equal |
| `Base64.StandardVectors` | tests/test_utils_base64.py:11 | the RFC 4648 test vectors BASE64("f") = "Zg==", BASE64("fo") = "Zm8=" and BASE64("foo") = "Zm9v" hold |
| `Utf8.EncodeScalar` | tests/test_utils_base64.py:11 | a character takes 1, 2, 3 or 4 UTF-8 octets according to its code point |
| `Utf8.Encode` | tests/test_utils_base64.py:11 | the UTF-8 form of a text has between 1 and 4 octets per character |
| `Utf8.Decode` | tests/test_utils_base64.py:20-21 | a decodable byte string has between 1 and 4 octets per decoded character |
| `Utf8.DecodeEncode` | tests/test_utils_base64.py:11-13 | UTF-8 decoding gives every text back from its UTF-8 form |
| `Utf8.EncodeDecode` | tests/test_utils_base64.py:20-21 | the strict decoder accepts a byte string only when it is the UTF-8 form of the text it returns |
| `Utf8.DecodeIff` | tests/test_utils_base64.py:11-21 | a byte string decodes to a text if and only if it is that text's UTF-8 form |
| `Utf8.NulOctetOnlyFromNul` | tests/test_utils_base64.py:16-21 | only U+0000 has a 0x00 octet in its UTF-8 form, and that form is the single octet 0x00 |
| `Utf8.NulInEncode` | tests/test_utils_base64.py:16-21 | a UTF-8 form holds 0x00 if and only if the text holds U+0000 |
| `Utf8.EncodeWithoutNul` | tests/test_utils_base64.py:12-21 | deleting the 0x00 octets of a UTF-8 form deletes exactly the U+0000 characters of the text |
| `Utf8.WithoutNulChars` | tests/test_utils_base64.py:20-21 | removing U+0000 leaves no U+0000 and keeps every other character that occurs |
| `Utf8.WithoutNulCharsIdentity` | tests/test_utils_base64.py:12-13 | a text without U+0000 is unchanged by removing U+0000 |
| `Utf8.WithoutNulCharsAppend` | tests/test_utils_base64.py:20-21 | removing U+0000 distributes over concatenation, keeping the order and repeats of the other characters |
| `Utf8.RocketVector` | tests/test_utils_base64.py:7-11 | U+1F680 encodes to F0 9F 9A 80 |
| `Bytes.WithoutNul` | tests/test_utils_base64.py:20-21 | deleting NUL octets leaves no 0x00 and keeps every other octet value that occurs |
| `Bytes.WithoutNulAppend` | tests/test_utils_base64.py:20-21 | deleting NUL octets distributes over concatenation |
| `Bytes.WithoutNulIdentity` | tests/test_utils_base64.py:12-13 | a byte string without 0x00 is unchanged by deleting NUL octets |
| `Base64Utils.Base64Encode` | tests/test_utils_base64.py:9-11 | `base64_encode` returns 4 * ceil(n / 3) alphabet-or-`=` characters for n UTF-8 octets, with `=` only at the end |
| `Base64Utils.Base64Decode` | tests/test_utils_base64.py:16-21 | `base64_decode` fails as invalid base64 exactly when the text is not well-formed base64. Otherwise it succeeds exactly when the decoded octets minus their 0x00 octets are the UTF-8 form of some text, and it then returns that text, which never contains U+0000 |
| `Base64Utils.DecodeOfAnyOctets` | tests/test_utils_base64.py:16-21 | decoding the base64 of any octets gives the UTF-8 text of those octets minus their 0x00 octets; it fails only when that remainder is not UTF-8 |
| `Base64Utils.DecodeDropsNulExample` | tests/test_utils_base64.py:16-21 | the base64 of `abc\0def\0` decodes to "abcdef" |
| `Base64Utils.RoundTrip` | tests/test_utils_base64.py:12-21 | `base64_decode(base64_encode(s))` is `s` with every U+0000 removed, for every text `s` |
| `Base64Utils.RoundTripWithoutNul` | tests/test_utils_base64.py:12-13 | `base64_decode(base64_encode(s)) == s` for every `s` without U+0000 |
| `Base64Utils.EncodeInjective` | tests/test_utils_base64.py:11-13 | two texts with the same `base64_encode` output are equal |
| `SubmissionFields.EncodeIfTruthy` | src/judge0_client/models/single_file_submission.py:21-22 | `None` stays `None`, `""` stays `""`, and a non-empty text becomes a non-empty text different from it |
| `SubmissionFields.EncodeIfTruthyEncodesEveryValue` | src/judge0_client/models/single_file_submission.py:21-22 | passing `""` through equals encoding it, so every present value ends up as its base64 form |
| `SubmissionFields.EncodedFieldDecodes` | src/judge0_client/models/multi_file_submission.py:20-21 | a present encoded field decodes back to the original text minus U+0000 |
| `SingleFileSubmission.EncodeToBase64` | src/judge0_client/models/single_file_submission.py:18-24 | never fails. `source_code` is encoded. `stdin` and `expected_output` stay absent when absent and are encoded when present. `additional_files` is the archive exactly when the mapping is present and non-empty, else `None`. Language and limits are copied |
| `SingleFileSubmission.EncodedTextDecodes` | src/judge0_client/models/single_file_submission.py:19-22 | every text field of the encoded copy decodes back to the original field minus U+0000 |
| `SingleFileSubmission.EncodeInjective` | src/judge0_client/models/single_file_submission.py:19-24 | two submissions with the same files and the same encoded copy are equal |
| `MultiFileSubmission.EncodeToBase64` | src/judge0_client/models/multi_file_submission.py:11-23 | fails with the `ValueError` exactly when no key is `"run"`. On success the mapping is non-empty and archived whole, `stdin` and `expected_output` follow the single-file rule, the language stays `MultiFileLanguageId` (89) and the limits are copied |
| `MultiFileSubmission.RunKeyIsExact` | src/judge0_client/models/multi_file_submission.py:17-18 | files keyed `run.sh` and `scripts/run` do not count as the run script |
| `MultiFileSubmission.EmptyFilesRefused` | src/judge0_client/models/multi_file_submission.py:12-18 | an empty mapping is refused |
| `MultiFileSubmission.EncodedTextDecodes` | src/judge0_client/models/multi_file_submission.py:19-21 | after a successful encoding, `stdin` and `expected_output` decode back to the originals minus U+0000 |

## Left out

- HTTP transport, headers, routes, the `base64_encoded` query flag and the async client lifecycle are left out: they are I/O.
- `to_body()` and JSON serialisation of the encoded copy are left out: they are pydantic plumbing outside the encoding step.
- Response decoding is left out: `BaseResponseModel.from_response`, submission details, worker lists, service info and `raise_for_status` / `Judge0Error` messages. Their source is not part of this model, and `time` is a float.
- The zip archive format and the compression are left out. `create_encoded_zip` is a caller-supplied `ZipUtils.ArchiveBuilder`, so no property of archive contents is stated.
- Pydantic validation when a submission is constructed is left out. The source of `BaseSubmission` is not part of this model. Its fields other than `stdin` and `expected_output`, which are known only from their use in the two submission files, are an opaque `Limits` parameter.
- Python strings may hold lone surrogates, which make `str.encode("utf-8")` raise. A Dafny `char` is a Unicode scalar value, so that error path cannot be expressed.
- `base64_decode`'s source is not part of this model. It is modelled on the strict alphabet of RFC 4648, and leftover pad bits are ignored as CPython does.
- Base64.Decode: is the strict decoder, as with `validate=True`. Beyond rejecting characters outside the alphabet, it also rejects excess padding (`"===="`, `"Zg==="`) and data after a padded quantum (`"Zg==Zg=="`). CPython's default decoder accepts these and returns b"", b"f" and b"f".
- Base64Utils.Base64Decode: rejects every character outside the alphabet and `=`, and all the text `Base64.Decode` rejects. Python's default `b64decode` silently discards such characters and tolerates that padding, so the model may refuse text that the library decodes.
