/**
 What an envelope of a native log becomes: which are accepted, which prefixes of the
 selected values are kept, and the record with the severity and time derived from them.
 */
module NativeRecord {
  import opened Wrappers
  import opened Utf8
  import opened JsonGrammar
  import opened JsonScanner
  import opened JsonParser
  import opened JsonUtf8
  import opened Envelope
  import Timestamp
  import R = Reader

  const BATCH_BYTES := 64 * 1024
  const VALUE_BYTES := 384
  const KEY_BYTES := 128
  const METADATA_BYTES := 4096
  const PAYLOAD := 7

  datatype Schema = Apple | Journal
  datatype Severity = Unknown | Trace | Debug | Info | Notice | Warning | Error | Critical

  // A record as published: the envelope, and what was derived from it.
  datatype Record = Record(
    raw: seq<Byte>, severity: Severity, stamp: Option<int>, fields: seq<(seq<Byte>, seq<Byte>)>)

  function Ascii(text: string): (bytes: seq<Byte>)
    ensures |bytes| == |text|
  {
    seq(|text|, i requires 0 <= i < |text| => (text[i] as int) % 128)
  }

  function Keys(schema: Schema): (keys: seq<seq<Byte>>)
    ensures ShortKeys(keys)
  {
    if schema.Apple? then
      [Ascii("processImagePath"), Ascii("processID"), Ascii("subsystem"), Ascii("category"),
       Ascii("messageType"), Ascii("timestamp"), Ascii("activityIdentifier"), Ascii("eventMessage")]
    else
      [Ascii("_SYSTEMD_UNIT"), Ascii("_COMM"), Ascii("_PID"), Ascii("__CURSOR"),
       Ascii("PRIORITY"), Ascii("__REALTIME_TIMESTAMP"), Ascii("SYSLOG_IDENTIFIER"), Ascii("MESSAGE")]
  }

  // No name is asked for twice, so that a record's field names are unique.
  lemma KeysAreDistinct(schema: Schema, i: nat, j: nat)
    requires i < j < 8
    ensures Keys(schema)[i] != Keys(schema)[j]
  {
    var keys := Keys(schema);
    assert |keys[i]| != |keys[j]| || keys[i][0] != keys[j][0];
  }

  predicate ShortKeys(keys: seq<seq<Byte>>) {
    |keys| == 8 && forall k :: 0 <= k < 8 ==> 0 < |keys[k]| <= 20
  }

  // ----- Bounded values ---------------------------------------------------------------

  // What trimming byte by byte leaves.
  function Trimmed(bytes: seq<Byte>): (kept: seq<Byte>)
    ensures WellFormed(kept) && |kept| <= |bytes|
  {
    if WellFormed(bytes) then bytes else Trimmed(bytes[..|bytes| - 1])
  }

  // It is the longest well-formed prefix.
  lemma {:induction false} TrimmedIsLongest(bytes: seq<Byte>, n: nat)
    requires n <= |bytes|
    ensures Trimmed(bytes) == bytes[..|Trimmed(bytes)|]
    ensures WellFormed(bytes[..n]) ==> n <= |Trimmed(bytes)|
  {
    if WellFormed(bytes) {
      assert bytes[..|bytes|] == bytes;
    } else if n < |bytes| {
      TrimmedIsLongest(bytes[..|bytes| - 1], n);
      assert bytes[..|bytes| - 1][..n] == bytes[..n];
      assert bytes[..|bytes| - 1][..|Trimmed(bytes)|] == bytes[..|Trimmed(bytes)|];
    } else {
      assert bytes[..n] == bytes;
      TrimmedIsLongest(bytes[..|bytes| - 1], 0);
      assert bytes[..|bytes| - 1][..|Trimmed(bytes)|] == bytes[..|Trimmed(bytes)|];
    }
  }

  // What is kept of a selected value.
  function Clip(bytes: seq<Byte>): (kept: seq<Byte>) {
    Trimmed(if |bytes| <= VALUE_BYTES then bytes else bytes[..VALUE_BYTES])
  }

  // Clipping a well-formed value keeps all of it when it fits, and otherwise gives up at
  // most three bytes of the buffer to stay well formed.
  lemma ClipKeepsMost(bytes: seq<Byte>)
    requires WellFormed(bytes)
    ensures WellFormed(Clip(bytes)) && Clip(bytes) <= bytes && |Clip(bytes)| <= VALUE_BYTES
    ensures |bytes| <= VALUE_BYTES ==> Clip(bytes) == bytes
    ensures |bytes| > VALUE_BYTES ==> VALUE_BYTES - 3 <= |Clip(bytes)|
  {
    if |bytes| > VALUE_BYTES {
      var k := PrefixNearlyWellFormed(bytes, VALUE_BYTES);
      assert bytes[..VALUE_BYTES][..k] == bytes[..k];
      TrimmedIsLongest(bytes[..VALUE_BYTES], k);
      assert bytes[..VALUE_BYTES][..|Clip(bytes)|] == bytes[..|Clip(bytes)|];
    }
  }

  ghost predicate AllWellFormed(fields: Fields) {
    forall k :: k in fields ==> WellFormed(fields[k])
  }

  // Every value scanned from a well-formed envelope is well formed.
  lemma {:induction false} MembersWellFormed(s: seq<Byte>, i: nat, fields: Fields, keys: seq<seq<Byte>>)
    requires WellFormed(s) && i <= |s| && ScanMembers(s, i, fields, keys).Done? && AllWellFormed(fields)
    ensures AllWellFormed(ScanMembers(s, i, fields, keys).fields)
    decreases |s| - i
  {
    var r := ScanMember(s, i, fields, keys);
    MemberWellFormed(s, i, fields, keys);
    if Eat(s, r.next, Closer(true)) == None {
      MembersWellFormed(s, Eat(s, r.next, COMMA).value, r.fields, keys);
    }
  }

  lemma MemberWellFormed(s: seq<Byte>, i: nat, fields: Fields, keys: seq<seq<Byte>>)
    requires WellFormed(s) && i <= |s| && ScanMember(s, i, fields, keys).Done? && AllWellFormed(fields)
    ensures AllWellFormed(ScanMember(s, i, fields, keys).fields)
  {
    var colon, more := TagEnd(s, i, true).value, ScanMember(s, i, fields, keys).fields;
    var index := Find(keys, NameAt(s, i));
    if index.Some? {
      var bytes := ValueBytes(s, SkipSpace(s, colon), ParseValue(s, colon, 1).next);
      assert more == fields[index.value := bytes];
      BytesWellFormed(s, colon);
      OneMoreWellFormed(fields, more, index.value, bytes);
    }
  }

  lemma OneMoreWellFormed(fields: Fields, more: Fields, index: nat, bytes: seq<Byte>)
    requires more == fields[index := bytes] && WellFormed(bytes) && AllWellFormed(fields)
    ensures AllWellFormed(more)
  {
  }

  lemma BytesWellFormed(s: seq<Byte>, i: nat)
    requires WellFormed(s) && i <= |s| && ParseValue(s, i, 1).Accept?
    ensures WellFormed(ValueBytes(s, SkipSpace(s, i), ParseValue(s, i, 1).next))
  {
    var start := SkipSpace(s, i);
    if s[start] == QUOTE {
      R.SkipTwice(s, i);
      StringWellFormed(s, start);
    } else {
      ValueWellFormed(s, i, 1);
    }
  }

  // ----- Severity and time ------------------------------------------------------------

  predicate AllDigits(text: seq<Byte>) {
    text != [] && Digits(text)
  }

  // A whole decimal integer that 64 bits hold.
  function Integer(text: seq<Byte>): (value: Option<int>) {
    var negative := text != [] && text[0] == MINUS;
    var digits := if negative then text[1..] else text;
    if !AllDigits(digits) then None
    else
      var value := if negative then -Timestamp.DigitsValue(digits) else Timestamp.DigitsValue(digits);
      if -Timestamp.MAX_INT64 - 1 <= value <= Timestamp.MAX_INT64 then Some(value) else None
  }

  // A selected value as kept, empty when the envelope does not have it.
  function Kept(fields: Fields, index: nat): (value: seq<Byte>) {
    if index in fields then Clip(fields[index]) else []
  }

  function Level(schema: Schema, level: seq<Byte>): (severity: Severity) {
    if schema.Apple? then
      if level == Ascii("Debug") then Debug
      else if level == Ascii("Info") then Info
      else if level == Ascii("Default") then Notice
      else if level == Ascii("Error") then Error
      else if level == Ascii("Fault") then Critical
      else Unknown
    else
      match Integer(level)
      case Some(priority) =>
        if 0 <= priority < 8
        then [Critical, Critical, Critical, Error, Warning, Notice, Info, Debug][priority] else Unknown
      case None => Unknown
  }

  ghost function StampOf(schema: Schema, fields: Fields): (stamp: Option<int>) {
    if schema.Apple? then Timestamp.Reading(Kept(fields, 5))
    else
      match Integer(Kept(fields, 5))
      case Some(micros) => if 0 <= micros <= Timestamp.MAX_INT64 / 1000 then Some(micros * 1000) else None
      case None => None
  }

  // Every derived time is an instant that 64 bits hold.
  lemma StampFits(schema: Schema, fields: Fields)
    ensures StampOf(schema, fields).Some? ==> 0 <= StampOf(schema, fields).value <= Timestamp.MAX_INT64
  {
  }

  function PairsUpTo(keys: seq<seq<Byte>>, fields: Fields, count: nat): (pairs: seq<(seq<Byte>, seq<Byte>)>)
    requires count <= |keys|
  {
    if count == 0 then []
    else
      PairsUpTo(keys, fields, count - 1) +
      (if count - 1 in fields then [(keys[count - 1], Clip(fields[count - 1]))] else [])
  }

  ghost function Publication(envelope: seq<Byte>, schema: Schema, fields: Fields): (record: Record) {
    Record(envelope, Level(schema, Kept(fields, 4)), StampOf(schema, fields), PairsUpTo(Keys(schema), fields, 8))
  }

  function MetadataBytes(pairs: seq<(seq<Byte>, seq<Byte>)>): (bytes: nat) {
    if pairs == [] then 0
    else MetadataBytes(pairs[..|pairs| - 1]) + |pairs[|pairs| - 1].0| + |pairs[|pairs| - 1].1|
  }

  // The metadata of a record always fits its storage, so publishing never fails.
  lemma {:induction false} MetadataFits(keys: seq<seq<Byte>>, fields: Fields, count: nat)
    requires count <= |keys| && ShortKeys(keys)
    ensures var pairs := PairsUpTo(keys, fields, count);
            |pairs| <= count && MetadataBytes(pairs) <= count * (20 + VALUE_BYTES) <= METADATA_BYTES
  {
    if count > 0 {
      MetadataFits(keys, fields, count - 1);
      var before := PairsUpTo(keys, fields, count - 1);
      var pairs := PairsUpTo(keys, fields, count);
      if count - 1 in fields {
        assert pairs[..|pairs| - 1] == before;
        assert |Clip(fields[count - 1])| <= VALUE_BYTES;
      } else {
        assert pairs == before;
      }
    }
  }

  // ----- Decoding ---------------------------------------------------------------------

  // What a decoder answers; a record that is published fits its storage.
  datatype Result = Published(record: Record) | Invalid | Limit

  datatype Verdict = Accepted(fields: Fields) | Rejected | OverLimit

  function Judge(envelope: seq<Byte>, schema: Schema): (v: Verdict) {
    if |envelope| > BATCH_BYTES then OverLimit
    else if !WellFormed(envelope) then Rejected
    else match ScanEnvelope(envelope, Keys(schema))
      case Invalid => Rejected
      case Limit => OverLimit
      case Done(fields, _) => if PAYLOAD in fields then Accepted(fields) else Rejected
  }

  // The answer to an envelope.
  ghost function Decoding(envelope: seq<Byte>, schema: Schema): (result: Result) {
    match Judge(envelope, schema)
    case Accepted(fields) => Published(Publication(envelope, schema, fields))
    case Rejected => Result.Invalid
    case OverLimit => Result.Limit
  }

  // An envelope is accepted exactly when it is a bounded well-formed text of one JSON
  // object, within the depth limit, that has the payload and repeats no selected name.
  lemma AcceptedExactly(envelope: seq<Byte>, schema: Schema, fields: Fields)
    ensures Judge(envelope, schema) == Accepted(fields) <==>
            |envelope| <= BATCH_BYTES && WellFormed(envelope) && PAYLOAD in fields &&
            exists v :: EnvelopeTree(envelope, Keys(schema), v, fields)
  {
    ScanIsObject(envelope, Keys(schema), fields);
  }

  // What an accepted envelope publishes: well-formed prefixes that are whole when they
  // fit and at most three bytes short of the buffer when not, within the storage of a
  // record, with the payload among them.
  lemma PublishedFields(envelope: seq<Byte>, schema: Schema, fields: Fields)
    requires Judge(envelope, schema) == Accepted(fields)
    ensures PAYLOAD in fields
    ensures forall k :: k in fields ==>
              && WellFormed(fields[k]) && WellFormed(Clip(fields[k])) && Clip(fields[k]) <= fields[k]
              && (if |fields[k]| <= VALUE_BYTES then Clip(fields[k]) == fields[k]
                  else VALUE_BYTES - 3 <= |Clip(fields[k])| <= VALUE_BYTES)
    ensures MetadataBytes(Publication(envelope, schema, fields).fields) <= METADATA_BYTES
  {
    var start := Eat(envelope, 0, Opener(true)).value;
    if Eat(envelope, start, Closer(true)) == None {
      MembersWellFormed(envelope, start, map[], Keys(schema));
    }
    forall k | k in fields
      ensures WellFormed(Clip(fields[k])) && Clip(fields[k]) <= fields[k]
      ensures |fields[k]| <= VALUE_BYTES ==> Clip(fields[k]) == fields[k]
      ensures |fields[k]| > VALUE_BYTES ==> VALUE_BYTES - 3 <= |Clip(fields[k])| <= VALUE_BYTES
    {
      ClipKeepsMost(fields[k]);
    }
    MetadataFits(Keys(schema), fields, 8);
  }

  // Which values of a map go beyond what is kept.
  ghost predicate Overflows(fields: Fields) {
    exists k :: k in fields && |fields[k]| > VALUE_BYTES
  }

  lemma OverflowsAfter(fields: Fields, index: nat, bytes: seq<Byte>)
    requires index !in fields
    ensures Overflows(fields[index := bytes]) <==> Overflows(fields) || |bytes| > VALUE_BYTES
  {
    var more := fields[index := bytes];
    if |bytes| > VALUE_BYTES {
      assert index in more && |more[index]| > VALUE_BYTES;
    }
    if Overflows(fields) {
      var k :| k in fields && |fields[k]| > VALUE_BYTES;
      assert k in more && |more[k]| > VALUE_BYTES;
    }
  }
}
