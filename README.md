# NFC Text Beam — a Dafny model

NFC Text Beam is a one-screen Android application: the user types plain text
into an edit field and pushes it to another phone over NFC as an NDEF
message; text shared into the app, or received over NFC, lands in the same
field. This project models the logic of that screen:

- **Message construction** (`Ndef`, `Utf8`): `createNdefMessage` builds a
  two-record NDEF message, a MIME-media record of type
  `application/<package>.payload` whose payload is the buffer in UTF-8, then
  the Android Application Record of the package. UTF-8 (RFC 3629, section 3)
  is written out as an encoder and a decoder over Unicode scalar values, and
  decoding an encoded string is proved to give it back, so the text a phone
  pushes is the text the receiving phone reads.
- **Buffer lifecycle** (`BufferMerge`, `Lifecycle`): the class
  `MainActivity` holds the buffer, its cursor, the private preferences slot
  `SAVED_TEXT` and the current intent. `onPause` saves the buffer;
  `onResume` applies the intent (a `text/plain` share or an NDEF discovery
  replaces the buffer), merges the saved text back in, and puts the cursor at
  the end; the Clear menu item empties the buffer. The merge rule is a pure
  function: an empty saved text changes nothing, an empty buffer takes the
  saved text, and otherwise the saved text is appended after a blank line
  unless its trimmed form equals the trimmed buffer. It only ever appends, so
  shared or received text is never overwritten.
- **The retained intent**: `onNewIntent` only replaces the intent and nothing
  clears it, so every resume applies the same share or NFC message again.
  `ShareAppliedOnEveryResume` shows the consequence: after a text share, each
  pause/resume puts another copy of the shared text in front of the buffer.
- **Menu** (`MenuEffectOf`, `OnOptionsItemSelected`): what each item hands to
  the platform; share and copy only act on a non-empty buffer; self-share
  names the APK copy after the application label with every space, `/` and
  `-` turned into `_` (`AppName`).
- **Plain-text watcher** (`PlainTextWatcher`): after every edit,
  `afterTextChanged` removes every `CharacterStyle` span from the
  `Editable` in place, keeping the text and every other span;
  `beforeTextChanged` and `onTextChanged` do nothing (methods with an empty
  body and no frame).

The operations that change state in the source are methods of the classes
`MainActivity` and `Editable`; each one's postcondition ties the new state to
a pure function of the old state (`Resumed`, `Paused`, `MenuEffectOf`,
`PlainSpans`, `Drop`), and the lemmas state what the application promises
about those functions.

Receiving never fails on the bytes: `ByteArray.toString(Charsets.UTF_8)`
puts U+FFFD in place of each ill-formed sequence, and `Utf8.Decode` does the
same. An NDEF_DISCOVERED intent without a first message or record makes
`onResume` fault (line 88 indexes without a check); the model returns that
fault and changes nothing.

## Model

| member | source | states |
|---|---|---|
| Utf8.Encode | app/src/main/java/app/septs/nfctextbeam/MainActivity.kt:59 | the UTF-8 form of a string has between one and four bytes per character and is empty exactly when the string is |
| Utf8.Decode | app/src/main/java/app/septs/nfctextbeam/MainActivity.kt:89 | decoding is total: every byte string gives a string, no longer than the bytes, empty exactly when the bytes are |
| Utf8.DecodeFirstEncodeChar | app/src/main/java/app/septs/nfctextbeam/MainActivity.kt:89 | the decoder reads exactly the bytes of one encoded character back as that character, whatever follows |
| Utf8.DecodeEncode | app/src/main/java/app/septs/nfctextbeam/MainActivity.kt:59 | decoding the UTF-8 bytes of any string of scalar values gives the string back |
| Utf8.EncodeInjective | app/src/main/java/app/septs/nfctextbeam/MainActivity.kt:59 | two different strings never have the same UTF-8 bytes |
| Ndef.Payload | app/src/main/java/app/septs/nfctextbeam/MainActivity.kt:88 | the payload of a record; an application record's payload decodes to its package name |
| Ndef.MimeType | app/src/main/java/app/septs/nfctextbeam/MainActivity.kt:52 | the record type is `application/`, then exactly the package name, then `.payload` |
| Ndef.OutgoingMessage | app/src/main/java/app/septs/nfctextbeam/MainActivity.kt:53-63 | exactly two records: a MIME-media record with empty id whose type is the UTF-8 bytes of the MIME type and whose payload is the UTF-8 bytes of the buffer (so they decode back to them), then the application record of the package |
| Ndef.EmptyTextEmptyPayload | app/src/main/java/app/septs/nfctextbeam/MainActivity.kt:59 | an empty buffer is pushed with a zero-length payload |
| Ndef.OutgoingPayloadInjective | app/src/main/java/app/septs/nfctextbeam/MainActivity.kt:59 | two buffers pushed with the same first-record payload are the same buffer |
| BufferMerge.TrimStart | app/src/main/java/app/septs/nfctextbeam/MainActivity.kt:102 | the result is a suffix of the input, everything dropped is whitespace, and it does not start with whitespace |
| BufferMerge.TrimEnd | app/src/main/java/app/septs/nfctextbeam/MainActivity.kt:102 | the result is a prefix of the input, everything dropped is whitespace, and it does not end with whitespace |
| BufferMerge.Trim | app/src/main/java/app/septs/nfctextbeam/MainActivity.kt:102 | the trimmed string is the contiguous slice of the input left after dropping its leading and trailing whitespace; it neither starts nor ends with whitespace and keeps every non-whitespace character |
| BufferMerge.Merge | app/src/main/java/app/septs/nfctextbeam/MainActivity.kt:94-105 | an empty saved text keeps the buffer; an empty buffer takes the saved text; a non-empty buffer equal to the saved text after trimming is kept; otherwise the result is buffer, blank line, saved text; in every case the buffer is a prefix of the result |
| BufferMerge.MergeSame | app/src/main/java/app/septs/nfctextbeam/MainActivity.kt:100-105 | merging the buffer's own text back into it leaves it unchanged |
| BufferMerge.TrimGrows | app/src/main/java/app/septs/nfctextbeam/MainActivity.kt:102 | appending a blank line and a text with a visible character always changes the trimmed form |
| BufferMerge.ReapplyDuplicates | app/src/main/java/app/septs/nfctextbeam/MainActivity.kt:98-105 | merging the result of a merge into the same starting text appends that whole result, giving two copies of the starting text |
| Lifecycle.FirstRecordText | app/src/main/java/app/septs/nfctextbeam/MainActivity.kt:87-89 | an NDEF intent yields the decoded payload of the first record of the first message, and faults exactly when there is no such record |
| Lifecycle.IncomingText | app/src/main/java/app/septs/nfctextbeam/MainActivity.kt:79-90 | a `text/plain` share sets the buffer to the shared text (empty when absent); an NDEF discovery sets it to the received text or faults; any other intent, or a share of another type, leaves it unchanged |
| Lifecycle.SavedText | app/src/main/java/app/septs/nfctextbeam/MainActivity.kt:92-93 | the saved text is the `SAVED_TEXT` entry, or empty when there is none |
| Lifecycle.Paused | app/src/main/java/app/septs/nfctextbeam/MainActivity.kt:72-74 | after a pause the saved text is the buffer and every other preference is unchanged |
| Lifecycle.Resumed | app/src/main/java/app/septs/nfctextbeam/MainActivity.kt:79-106 | a resume faults exactly when the intent does; otherwise the text the intent brought is a prefix of the result, and is the whole result when nothing was saved |
| Lifecycle.PauseThenResume | app/src/main/java/app/septs/nfctextbeam/MainActivity.kt:70-106 | a pause then a resume with an intent that does not replace the buffer leaves the buffer unchanged |
| Lifecycle.PushedTextReceived | app/src/main/java/app/septs/nfctextbeam/MainActivity.kt:86-89 | the text pushed by one device and delivered as the first NDEF message comes back unchanged as the buffer, and starts the buffer after the merge |
| Lifecycle.ShareAppliedOnEveryResume | app/src/main/java/app/septs/nfctextbeam/MainActivity.kt:79-106 | with a text share kept as the intent, the first resume gives shared text, blank line, saved text, and the next pause/resume puts a second copy of the shared text in front |
| Lifecycle.MenuEffectOf | app/src/main/java/app/septs/nfctextbeam/MainActivity.kt:118-176 | share and copy carry the whole buffer and act only when it is non-empty (copy under the label `nfc-beam`); self-share names the file after the sanitised label; unknown items are left to the platform |
| Lifecycle.MainActivity.constructor | app/src/main/java/app/septs/nfctextbeam/MainActivity.kt:33-46 | the activity starts with an empty buffer, the cursor at 0, the given preferences and intent |
| Lifecycle.MainActivity.CreateNdefMessage | app/src/main/java/app/septs/nfctextbeam/MainActivity.kt:49-64 | the pushed message has two records: MIME-media, empty id, type the UTF-8 bytes of `application/<package>.payload`, payload the UTF-8 bytes of the buffer (each decoding back); then the application record; the state is not changed |
| Lifecycle.MainActivity.OnNewIntent | app/src/main/java/app/septs/nfctextbeam/MainActivity.kt:66-68 | the new intent replaces the current one; buffer, cursor and preferences are unchanged and the activity stays valid |
| Lifecycle.MainActivity.OnPause | app/src/main/java/app/septs/nfctextbeam/MainActivity.kt:70-75 | the saved text becomes exactly the buffer; buffer, cursor and intent are unchanged |
| Lifecycle.MainActivity.OnResume | app/src/main/java/app/septs/nfctextbeam/MainActivity.kt:77-108 | the buffer becomes `Resumed` of the old state and the cursor its length; on a fault nothing changes; the preferences and the intent are kept |
| Lifecycle.MainActivity.ApplyIntent | app/src/main/java/app/septs/nfctextbeam/MainActivity.kt:79-91 | the buffer becomes the intent's text as `IncomingText` says; on a fault buffer and cursor are unchanged |
| Lifecycle.MainActivity.RestoreSavedText | app/src/main/java/app/septs/nfctextbeam/MainActivity.kt:92-106 | the buffer becomes the merge of itself with the saved text |
| Lifecycle.MainActivity.OnOptionsItemSelected | app/src/main/java/app/septs/nfctextbeam/MainActivity.kt:118-176 | Clear empties the buffer and resets the cursor; every other item keeps the buffer; the effect is `MenuEffectOf` the item and the old buffer |
| AppName.SanitizedAppName | app/src/main/java/app/septs/nfctextbeam/MainActivity.kt:148-149 | the sanitised name has the label's length; each space, `/` and `-` becomes `_` and every other character stays in place |
| AppName.SanitizedIsClean | app/src/main/java/app/septs/nfctextbeam/MainActivity.kt:149 | no space, `/` or `-` is left, and sanitising again changes nothing |
| AppName.CleanLabelUnchanged | app/src/main/java/app/septs/nfctextbeam/MainActivity.kt:149 | a label without those characters is kept as it is |
| AppName.ApkFileName | app/src/main/java/app/septs/nfctextbeam/MainActivity.kt:150 | the file name is the sanitised label followed by `.apk` |
| PlainTextWatcher.CharacterStyleSpans | app/src/main/java/app/septs/nfctextbeam/PlainTextWatcher.kt:10-14 | exactly the character-style spans of the editable |
| PlainTextWatcher.PlainSpans | app/src/main/java/app/septs/nfctextbeam/PlainTextWatcher.kt:10-15 | the spans left hold no character style and every other span, no more |
| PlainTextWatcher.PlainSpansIdempotent | app/src/main/java/app/septs/nfctextbeam/PlainTextWatcher.kt:10-15 | removing the character styles a second time changes nothing |
| PlainTextWatcher.Editable.RemoveSpan | app/src/main/java/app/septs/nfctextbeam/PlainTextWatcher.kt:15 | the span is detached, every other span stays in order, and the text is untouched |
| PlainTextWatcher.AfterTextChanged | app/src/main/java/app/septs/nfctextbeam/PlainTextWatcher.kt:8-17 | a null editable is left alone; otherwise the text is unchanged and the spans become exactly the non-character-style spans, in order |
| PlainTextWatcher.BeforeTextChanged | app/src/main/java/app/septs/nfctextbeam/PlainTextWatcher.kt:19-20 | changes no state: an empty body and no frame |
| PlainTextWatcher.OnTextChanged | app/src/main/java/app/septs/nfctextbeam/PlainTextWatcher.kt:22-23 | changes no state: an empty body and no frame |

## Left out

- Lifecycle.MainActivity.CreateNdefMessage: the platform calls `createNdefMessage` on a binder thread, not the UI thread, and line 51 reads the buffer there without synchronisation against edits, `onPause`, `onResume` or Clear; the model reads `content` as a snapshot taken between UI events, so a read racing with an edit is not modelled.
- NFC adapter lookup, push-callback registration, the disabled-field branch of `onCreate` on a device without NFC (lines 38-46) and `onCreateOptionsMenu`: platform plumbing; the model is the activity on a device with NFC.
- The byte-level NDEF encoding (flags, length fields) done by `NdefMessage` and `NdefRecord`: records are modelled as TNF, type, id and payload. The application record is the constructor `ApplicationRecord(packageName)`; its payload is taken to be the package name in UTF-8, as the platform builds it.
- What the platform does with a menu effect (the share chooser, the clipboard and its toast, the settings screens, the browser, the APK copy and its `FileProvider` URI): foreign calls, modelled only as the `MenuEffect` value handed over.
- `SharedPreferences.apply()` writes asynchronously; the model's preferences are a map updated at once.
- Kotlin's `Char.isWhitespace` (a Unicode table) is the parameter `isWhitespace` of the activity.
- Kotlin strings are UTF-16 and may hold unpaired surrogates, which the encoder replaces with `?`; a Dafny string holds only scalar values, so that case is not modelled.
- Utf8.Decode: the replacement of ill-formed input follows the "maximal subpart" practice of the Unicode standard; the Java decoder's exact replacement granularity is not part of this model.
- The crash of `onResume` on an NDEF intent without a first message or record is a returned `Fault` with the state unchanged; the death of the process is not modelled.
- A null intent from `getIntent()` and a null `onNewIntent` argument are not modelled.
- The cursor moves that `setText` and `append` make inside `onResume` are not modelled; only the final `setSelection` at the end of the buffer.
- `getSpans(0, length, CharacterStyle)` is modelled as "every character-style span": a query over the whole text matches every span within it. Span priorities and flags are not modelled, and the watcher's `Editable` is not linked to the activity's buffer, which is plain text.
