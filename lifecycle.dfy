/** The screen `MainActivity`: a text buffer (the `EditText` `mContent`), its
    cursor, the activity's private preferences holding the buffer under
    `SAVED_TEXT`, and the intent the activity was last given. The pure
    functions say what each lifecycle callback computes; the class carries
    the state the callbacks update in place. */
module Lifecycle {
  import opened Results
  import opened Utf8
  import opened Ndef
  import opened BufferMerge
  import opened AppName

  /** The preferences key of the saved buffer. */
  const SavedTextKey: string := "SAVED_TEXT"
  /** The only shared MIME type that replaces the buffer. */
  const PlainText: string := "text/plain"
  /** The label of the clip written by "copy to clipboard". */
  const ClipLabel: string := "nfc-beam"

  /** `Intent.ACTION_SEND`, `NfcAdapter.ACTION_NDEF_DISCOVERED`, or any other
      action (the launcher's, or none). */
  datatype Action = ActionSend | ActionNdefDiscovered | OtherAction

  /** The parts of an intent `onResume` reads: its action, its MIME type, the
      `EXTRA_TEXT` string and the `EXTRA_NDEF_MESSAGES` array; an absent type
      or extra is `None`. */
  datatype Intent = Intent(
    action: Action,
    mimeType: Option<string>,
    textExtra: Option<string>,
    ndefMessages: Option<seq<NdefMessage>>)

  /** Why `onResume` faults on an NDEF_DISCOVERED intent: there is no first
      message (`messages[0]`, line 88) or it has no first record. */
  datatype Fault = NoNdefMessage | NoNdefRecord

  /** An intent whose handling in `onResume` sets the buffer. */
  predicate ReplacesBuffer(intent: Intent) {
    (intent.action == ActionSend && intent.mimeType == Some(PlainText))
    || intent.action == ActionNdefDiscovered
  }

  /** The text of the first record of the first message, decoded as UTF-8
      (lines 87-89); reading past either array faults. */
  function FirstRecordText(messages: Option<seq<NdefMessage>>): (r: Result<string, Fault>)
    ensures r.Err? <==> messages.None? || |messages.value| == 0 || |messages.value[0].records| == 0
    ensures r.Ok? ==> Utf8.Decode(Payload(messages.value[0].records[0])) == r.value
  {
    if messages.None? || |messages.value| == 0 then Err(NoNdefMessage)
    else if |messages.value[0].records| == 0 then Err(NoNdefRecord)
    else Ok(Utf8.Decode(Payload(messages.value[0].records[0])))
  }

  /** The buffer after the intent is applied, before the saved text is merged
      (lines 79-90): a `text/plain` share sets it to the shared text (an absent
      extra reads as empty, as `setText(null)` does), an NDEF discovery sets it
      to the received text, and anything else leaves it alone. */
  function IncomingText(intent: Intent, buffer: string): (r: Result<string, Fault>)
    ensures r.Err? <==> intent.action == ActionNdefDiscovered && FirstRecordText(intent.ndefMessages).Err?
    ensures intent.action == ActionSend && intent.mimeType == Some(PlainText) ==>
              r == Ok(intent.textExtra.GetOr(""))
    ensures intent.action == ActionNdefDiscovered ==> r == FirstRecordText(intent.ndefMessages)
    ensures !ReplacesBuffer(intent) ==> r == Ok(buffer)
  {
    match intent.action
    case ActionSend =>
      if intent.mimeType == Some(PlainText) then Ok(intent.textExtra.GetOr("")) else Ok(buffer)
    case ActionNdefDiscovered =>
      FirstRecordText(intent.ndefMessages)
    case OtherAction =>
      Ok(buffer)
  }

  /** `prefs.getString(SAVED_TEXT, "")`. */
  function SavedText(prefs: map<string, string>): (r: string)
    ensures SavedTextKey !in prefs ==> r == ""
    ensures SavedTextKey in prefs ==> r == prefs[SavedTextKey]
  {
    if SavedTextKey in prefs then prefs[SavedTextKey] else ""
  }

  /** The preferences after `onPause` saved `buffer`. */
  function Paused(prefs: map<string, string>, buffer: string): (r: map<string, string>)
    ensures SavedText(r) == buffer
    ensures forall k :: k != SavedTextKey ==> (k in r <==> k in prefs) && (k in prefs ==> r[k] == prefs[k])
  {
    prefs[SavedTextKey := buffer]
  }

  /** The buffer after `onResume`: the intent applied, then the saved text
      merged in. The text the intent brought is never overwritten: it is a
      prefix of the result. */
  function Resumed(intent: Intent, buffer: string, prefs: map<string, string>, isWhitespace: char -> bool)
    : (r: Result<string, Fault>)
    ensures r.Err? <==> IncomingText(intent, buffer).Err?
    ensures r.Ok? ==> IncomingText(intent, buffer).value <= r.value
    ensures r.Ok? && SavedText(prefs) == [] ==> r == IncomingText(intent, buffer)
  {
    match IncomingText(intent, buffer)
    case Err(e) => Err(e)
    case Ok(text) => Ok(Merge(text, SavedText(prefs), isWhitespace))
  }

  lemma ResumedIsMerge(intent: Intent, buffer: string, prefs: map<string, string>,
                       isWhitespace: char -> bool, incoming: string)
    requires IncomingText(intent, buffer) == Ok(incoming)
    ensures Resumed(intent, buffer, prefs, isWhitespace) == Ok(Merge(incoming, SavedText(prefs), isWhitespace))
  {
  }

  /** A pause followed by a resume that brings nothing new leaves the buffer
      as it was. */
  lemma PauseThenResume(intent: Intent, buffer: string, prefs: map<string, string>, isWhitespace: char -> bool)
    requires !ReplacesBuffer(intent)
    ensures Resumed(intent, buffer, Paused(prefs, buffer), isWhitespace) == Ok(buffer)
  {
    MergeSame(buffer, isWhitespace);
  }

  /** A message pushed by `createNdefMessage` on one device and delivered to
      `onResume` on another as the first message of an NDEF_DISCOVERED intent
      becomes that device's buffer before the merge: the sent text comes back
      unchanged, and it starts the buffer after the merge. */
  lemma PushedTextReceived(packageName: string, text: string, more: seq<NdefMessage>,
                           buffer: string, prefs: map<string, string>, isWhitespace: char -> bool)
    ensures var intent := Intent(ActionNdefDiscovered, None, None, Some([OutgoingMessage(packageName, text)] + more));
            IncomingText(intent, buffer) == Ok(text)
            && Resumed(intent, buffer, prefs, isWhitespace).Ok?
            && text <= Resumed(intent, buffer, prefs, isWhitespace).value
  {
    var m := OutgoingMessage(packageName, text);
    assert ([m] + more)[0] == m;
  }

  /** The intent is never consumed, so every resume applies it again: with a
      text share kept as the intent and a saved text that has a visible
      character and differs from it, the first resume gives the shared text,
      a blank line and the saved text, and after a pause the second resume
      puts another copy of the shared text in front. */
  lemma ShareAppliedOnEveryResume(shared: string, buffer1: string, buffer2: string,
                                  prefs: map<string, string>, isWhitespace: char -> bool)
    requires shared != [] && Visible(SavedText(prefs), isWhitespace) > 0
    requires Trim(SavedText(prefs), isWhitespace) != Trim(shared, isWhitespace)
    ensures var intent := Intent(ActionSend, Some(PlainText), Some(shared), None);
            var first := shared + Separator + SavedText(prefs);
            Resumed(intent, buffer1, prefs, isWhitespace) == Ok(first)
            && Resumed(intent, buffer2, Paused(prefs, first), isWhitespace)
               == Ok(shared + Separator + shared + Separator + SavedText(prefs))
  {
    var intent := Intent(ActionSend, Some(PlainText), Some(shared), None);
    var saved := SavedText(prefs);
    var first := shared + Separator + saved;
    VisibleZero(saved, isWhitespace);
    assert IncomingText(intent, buffer1) == Ok(shared);
    assert Resumed(intent, buffer1, prefs, isWhitespace) == Ok(first);
    ReapplyDuplicates(shared, saved, isWhitespace);
    assert SavedText(Paused(prefs, first)) == first;
    assert IncomingText(intent, buffer2) == Ok(shared);
  }

  /** The menu items of `onOptionsItemSelected`; `OtherItem` is any other id,
      or a null item. */
  datatype MenuItem = Clear | Share | CopyToClipboard | BeamSettings | ShareSelf | OpenHomepage | OtherItem

  /** What a menu item hands to the platform. */
  datatype MenuEffect =
    | NoEffect
    | ShareText(text: string)                     // a `text/plain` ACTION_SEND through the chooser
    | Clip(clipLabel: string, text: string)       // a plain-text clip, then a toast
    | OpenNfcSharingSettings
    | ShareApk(fileName: string)                  // the APK copied to the cache under this name
    | OpenProjectPage
    | NotHandled                                  // left to `super.onOptionsItemSelected`

  /** The effect of a menu item on a buffer holding `content` (lines
      118-176): share and copy only when the buffer is not empty, and they
      carry the whole buffer; self-share names the copied APK after the
      sanitised application label. */
  function MenuEffectOf(item: MenuItem, content: string, appLabel: string): (e: MenuEffect)
    ensures e.ShareText? ==> item == Share && e.text == content && content != []
    ensures e.Clip? ==> item == CopyToClipboard && e.text == content && e.clipLabel == ClipLabel && content != []
    ensures item in {Share, CopyToClipboard} && content == [] ==> e == NoEffect
    ensures item == Share && content != [] ==> e.ShareText?
    ensures item == CopyToClipboard && content != [] ==> e.Clip?
    ensures e.ShareApk? <==> item == ShareSelf
    ensures e.ShareApk? ==> e.fileName == ApkFileName(appLabel)
    ensures e == NotHandled <==> item == OtherItem
    ensures item == Clear ==> e == NoEffect
    ensures item == BeamSettings <==> e == OpenNfcSharingSettings
    ensures item == OpenHomepage <==> e == OpenProjectPage
  {
    match item
    case Clear => NoEffect
    case Share => if content != [] then ShareText(content) else NoEffect
    case CopyToClipboard => if content != [] then Clip(ClipLabel, content) else NoEffect
    case BeamSettings => OpenNfcSharingSettings
    case ShareSelf => ShareApk(ApkFileName(appLabel))
    case OpenHomepage => OpenProjectPage
    case OtherItem => NotHandled
  }

  class MainActivity {
    /** `applicationContext.packageName`. */
    const packageName: string
    /** The application label, `getString(app.labelRes)`. */
    const appLabel: string
    /** Kotlin's `Char.isWhitespace`, used by `trim()`. */
    const isWhitespace: char -> bool

    /** The text of `mContent`. */
    var content: string
    /** The selection of `mContent`, a single cursor position. */
    var cursor: nat
    /** The activity's private preferences. */
    var prefs: map<string, string>
    /** What `getIntent()` returns. */
    var intent: Intent

    ghost predicate Valid()
      reads this
    {
      cursor <= |content|
    }

    /** `onCreate` on a device with NFC: the edit field starts empty; the
        preferences are whatever an earlier instance left. */
    constructor (packageName: string, appLabel: string, isWhitespace: char -> bool,
                 prefs: map<string, string>, intent: Intent)
      ensures Valid()
      ensures this.packageName == packageName && this.appLabel == appLabel && this.isWhitespace == isWhitespace
      ensures content == [] && cursor == 0 && this.prefs == prefs && this.intent == intent
    {
      this.packageName := packageName;
      this.appLabel := appLabel;
      this.isWhitespace := isWhitespace;
      content := [];
      cursor := 0;
      this.prefs := prefs;
      this.intent := intent;
    }

    /** `createNdefMessage` (lines 49-64): two records, the buffer as a
        MIME-media record typed after the package, then the application
        record; the buffer is only read. */
    method CreateNdefMessage() returns (m: NdefMessage)
      ensures |m.records| == 2
      ensures m.records[0].Record? && m.records[0].tnf == MimeMedia && m.records[0].id == []
      ensures m.records[0].recordType == Utf8.Encode("application/" + packageName + ".payload")
      ensures m.records[0].payload == Utf8.Encode(content)
      ensures Utf8.Decode(m.records[0].recordType) == "application/" + packageName + ".payload"
      ensures Utf8.Decode(m.records[0].payload) == content
      ensures m.records[1] == ApplicationRecord(packageName)
    {
      m := OutgoingMessage(packageName, content);
    }

    /** `onNewIntent` (lines 66-68): the new intent replaces the old one and
        nothing else happens; it is applied at the next resume. */
    method OnNewIntent(newIntent: Intent)
      requires Valid()
      modifies this
      ensures Valid()
      ensures intent == newIntent
      ensures content == old(content) && cursor == old(cursor) && prefs == old(prefs)
    {
      intent := newIntent;
    }

    /** `onPause` (lines 70-75): the buffer is saved under `SAVED_TEXT`;
        the buffer and cursor stay as they are. */
    method OnPause()
      requires Valid()
      modifies this
      ensures Valid()
      ensures prefs == Paused(old(prefs), old(content)) && SavedText(prefs) == content
      ensures content == old(content) && cursor == old(cursor) && intent == old(intent)
    {
      prefs := prefs[SavedTextKey := content];
    }

    /** `onResume` (lines 77-108): apply the intent, merge the saved text,
        put the cursor at the end. An NDEF_DISCOVERED intent without a first
        record faults before anything changes. The intent itself is kept. */
    method OnResume() returns (fault: Option<Fault>)
      requires Valid()
      modifies this
      ensures Valid()
      ensures fault.Some? <==> Resumed(old(intent), old(content), old(prefs), isWhitespace).Err?
      ensures fault.Some? ==> content == old(content) && cursor == old(cursor)
      ensures fault.None? ==> Resumed(old(intent), old(content), old(prefs), isWhitespace) == Ok(content)
      ensures fault.None? ==> cursor == |content|
      ensures prefs == old(prefs) && intent == old(intent)
    {
      fault := ApplyIntent();
      assert cursor == old(cursor) && prefs == old(prefs) && intent == old(intent);
      if fault.Some? {
        return;
      }
      ghost var incoming := content;
      RestoreSavedText();
      assert content == Merge(incoming, SavedText(old(prefs)), isWhitespace);
      ResumedIsMerge(old(intent), old(content), old(prefs), isWhitespace, incoming);
      cursor := |content|;
    }

    /** Lines 79-90: the intent's share or NDEF text replaces the buffer.
        A step of `OnResume` only: the cursor may be past the end of the new
        buffer until `OnResume` moves it there. */
    method ApplyIntent() returns (fault: Option<Fault>)
      modifies this`content
      ensures fault.Some? <==> IncomingText(intent, old(content)).Err?
      ensures fault.Some? ==> content == old(content) && cursor == old(cursor)
      ensures fault.None? ==> IncomingText(intent, old(content)) == Ok(content)
    {
      fault := None;
      match intent.action {
        case ActionSend =>
          if intent.mimeType == Some(PlainText) {
            content := intent.textExtra.GetOr("");
          }
        case ActionNdefDiscovered =>
          var messages := intent.ndefMessages;
          if messages.None? || |messages.value| == 0 {
            return Some(NoNdefMessage);
          }
          var records := messages.value[0].records;
          if |records| == 0 {
            return Some(NoNdefRecord);
          }
          content := Utf8.Decode(Payload(records[0]));
        case OtherAction =>
      }
    }

    /** Lines 92-106: the saved text is appended to the buffer by the merge
        rule. A step of `OnResume` only, which then moves the cursor. */
    method RestoreSavedText()
      modifies this`content
      ensures content == Merge(old(content), SavedText(prefs), isWhitespace)
    {
      var restored := SavedText(prefs);
      if restored == [] {
        return;
      }
      if content == [] {
        content := content + restored;
      } else if Trim(restored, isWhitespace) != Trim(content, isWhitespace) {
        content := content + Separator;
        content := content + restored;
      }
    }

    /** `onOptionsItemSelected` (lines 118-176): Clear empties the buffer;
        every other item leaves it alone and hands its effect to the
        platform. */
    method OnOptionsItemSelected(item: MenuItem) returns (effect: MenuEffect)
      requires Valid()
      modifies this
      ensures Valid()
      ensures effect == MenuEffectOf(item, old(content), appLabel)
      ensures item == Clear ==> content == [] && cursor == 0
      ensures item != Clear ==> content == old(content) && cursor == old(cursor)
      ensures prefs == old(prefs) && intent == old(intent)
    {
      if item == Clear {
        content := [];
        cursor := 0;
      }
      effect := MenuEffectOf(item, content, appLabel);
    }
  }
}
