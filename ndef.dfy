/** NDEF records and messages in the abstract record model of the NFC Forum
    NDEF Technical Specification (TNF, type, id, payload), and the message
    this application pushes (`MainActivity.createNdefMessage`). Byte-level
    serialisation (flags and length fields) is done by the platform and is not
    modelled. */
module Ndef {
  import opened Utf8

  /** Type Name Format, section 3.2.6 of the NDEF Technical Specification. */
  datatype Tnf = Empty | WellKnown | MimeMedia | AbsoluteUri | ExternalType | Unknown | Unchanged

  datatype NdefRecord =
    | Record(tnf: Tnf, recordType: Bytes, id: Bytes, payload: Bytes)
      /** What `NdefRecord.createApplicationRecord(packageName)` builds: the
          Android Application Record naming the package. */
    | ApplicationRecord(packageName: string)

  datatype NdefMessage = NdefMessage(records: seq<NdefRecord>)

  /** The payload bytes of a record, as `NdefRecord.getPayload()` returns them.
      An Android Application Record carries its package name, in UTF-8. */
  function Payload(r: NdefRecord): (p: Bytes)
    ensures r.ApplicationRecord? ==> Decode(p) == r.packageName
  {
    match r
    case Record(_, _, _, payload) => payload
    case ApplicationRecord(pkg) => DecodeEncode(pkg); Encode(pkg)
  }

  /** The MIME type under which the buffer is pushed. */
  function MimeType(packageName: string): (t: string)
    ensures |t| == |packageName| + 20
    ensures t[..12] == "application/" && t[|t| - 8..] == ".payload"
    ensures t[12..|t| - 8] == packageName
  {
    "application/" + packageName + ".payload"
  }

  /** The message pushed for `text` by the package `packageName`: a MIME-media
      record carrying the text, then the application record. */
  function OutgoingMessage(packageName: string, text: string): (m: NdefMessage)
    ensures |m.records| == 2
    ensures m.records[0].Record? && m.records[0].tnf == MimeMedia && m.records[0].id == []
    ensures m.records[0].recordType == Encode(MimeType(packageName))
    ensures m.records[0].payload == Encode(text)
    ensures Decode(m.records[0].recordType) == MimeType(packageName)
    ensures Decode(m.records[0].payload) == text
    ensures m.records[1] == ApplicationRecord(packageName)
  {
    DecodeEncode(MimeType(packageName));
    DecodeEncode(text);
    NdefMessage([
      Record(MimeMedia, Encode(MimeType(packageName)), [], Encode(text)),
      ApplicationRecord(packageName)
    ])
  }

  /** An empty buffer is pushed as a record with a zero-length payload. */
  lemma EmptyTextEmptyPayload(packageName: string)
    ensures OutgoingMessage(packageName, "").records[0].payload == []
  {
  }

  /** Two buffers that differ are pushed as messages that differ in the
      payload of their first record. */
  lemma OutgoingPayloadInjective(packageName: string, s: string, t: string)
    requires Payload(OutgoingMessage(packageName, s).records[0]) == Payload(OutgoingMessage(packageName, t).records[0])
    ensures s == t
  {
    EncodeInjective(s, t);
  }
}
