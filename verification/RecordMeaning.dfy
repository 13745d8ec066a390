/**
 What the decoder's answers mean, told without it: which envelopes become records, and what
 the fields, the severity and the time of a record say about its envelope.
 */
module RecordMeaning {
  import opened Wrappers
  import opened Utf8
  import opened JsonGrammar
  import opened JsonParser
  import opened Envelope
  import opened JsonDepth
  import opened Numerals
  import opened NativeRecord
  import Timestamp

  // ----- Severity ---------------------------------------------------------------------

  // The texts that name a severity other than unknown: the five types of the Apple log, and
  // the numerals from 0 to 7 in the journal.
  ghost predicate Names(schema: Schema, text: seq<Byte>, severity: Severity) {
    match severity
    case Debug => if schema.Apple? then text == Ascii("Debug") else Spells(text, 7)
    case Info => if schema.Apple? then text == Ascii("Info") else Spells(text, 6)
    case Notice => if schema.Apple? then text == Ascii("Default") else Spells(text, 5)
    case Warning => schema.Journal? && Spells(text, 4)
    case Error => if schema.Apple? then text == Ascii("Error") else Spells(text, 3)
    case Critical =>
      if schema.Apple? then text == Ascii("Fault") else Spells(text, 0) || Spells(text, 1) || Spells(text, 2)
    case _ => false
  }

  ghost predicate SeverityIs(schema: Schema, text: seq<Byte>, severity: Severity) {
    if severity == Unknown then forall s :: !Names(schema, text, s) else Names(schema, text, severity)
  }

  // An integer is read exactly from the texts that spell it, if 64 bits hold it.
  lemma IntegerExactly(text: seq<Byte>, n: int)
    ensures Integer(text) == Some(n) <==>
            Spells(text, n) && -0x8000_0000_0000_0000 <= n <= 0x7FFF_FFFF_FFFF_FFFF
  {
    ValueIsNumeral(text, n);
    if text != [] && text[0] == MINUS {
      assert !Digits(text);
      ValueIsNumeral(text[1..], -n);
    }
  }

  lemma SpellsOnce(text: seq<Byte>, m: int, n: int)
    requires Spells(text, m) && Spells(text, n) && 0 <= m < 8 && 0 <= n < 8
    ensures m == n
  {
    IntegerExactly(text, m);
    IntegerExactly(text, n);
  }

  lemma AppleNamesDiffer()
    ensures Ascii("Debug") != Ascii("Error") && Ascii("Debug") != Ascii("Fault") && Ascii("Error") != Ascii("Fault")
    ensures |Ascii("Debug")| == |Ascii("Error")| == |Ascii("Fault")| == 5
    ensures |Ascii("Info")| == 4 && |Ascii("Default")| == 7
  {
    assert Ascii("Debug")[0] != Ascii("Error")[0] && Ascii("Fault")[0] != Ascii("Error")[0];
    assert Ascii("Debug")[0] != Ascii("Fault")[0];
  }

  lemma LevelNames(schema: Schema, text: seq<Byte>, severity: Severity)
    requires severity != Unknown
    ensures Level(schema, text) == severity <==> Names(schema, text, severity)
  {
    if schema.Apple? {
      AppleNamesDiffer();
    } else {
      PriorityNames(text, severity);
    }
  }

  lemma PriorityNames(text: seq<Byte>, severity: Severity)
    requires severity != Unknown
    ensures Level(Journal, text) == severity <==> Names(Journal, text, severity)
  {
    match severity {
      case Debug => Priority(text, 7);
      case Info => Priority(text, 6);
      case Notice => Priority(text, 5);
      case Warning => Priority(text, 4);
      case Error => Priority(text, 3);
      case Critical =>
        Priority(text, 0);
        Priority(text, 1);
        Priority(text, 2);
      case _ =>
    }
  }

  lemma Priority(text: seq<Byte>, n: nat)
    requires n < 8
    ensures Integer(text) == Some(n) <==> Spells(text, n)
  {
    IntegerExactly(text, n);
  }

  // The level of a text is the severity it names, and unknown exactly when it names none.
  lemma LevelExactly(schema: Schema, text: seq<Byte>, severity: Severity)
    ensures Level(schema, text) == severity <==> SeverityIs(schema, text, severity)
  {
    if severity == Unknown {
      forall s | s != Unknown ensures Level(schema, text) == s <==> Names(schema, text, s) {
        LevelNames(schema, text, s);
      }
      assert !Names(schema, text, Unknown);
      if Level(schema, text) != Unknown {
        assert Names(schema, text, Level(schema, text));
      }
    } else {
      LevelNames(schema, text, severity);
    }
  }

  // ----- Time -------------------------------------------------------------------------

  const MOST := 0x7FFF_FFFF_FFFF_FFFF

  // In the Apple log, the instant that a timestamp denotes; in the journal, a count of
  // microseconds: in nanoseconds, if 64 bits hold it.
  ghost predicate Tells(schema: Schema, text: seq<Byte>, nanos: int) {
    && 0 <= nanos <= MOST
    && if schema.Apple? then Timestamp.Denotes(text, nanos)
       else exists micros :: Spells(text, micros) && nanos == micros * 1000
  }

  ghost predicate StampIs(schema: Schema, text: seq<Byte>, stamp: Option<int>) {
    match stamp
    case Some(nanos) => Tells(schema, text, nanos)
    case None => forall nanos :: !Tells(schema, text, nanos)
  }

  lemma MicrosTell(text: seq<Byte>, nanos: int)
    ensures Tells(Journal, text, nanos) <==>
            Integer(text).Some? && 0 <= Integer(text).value <= MOST / 1000 && nanos == Integer(text).value * 1000
  {
    if Tells(Journal, text, nanos) {
      var micros :| Spells(text, micros) && nanos == micros * 1000;
      IntegerExactly(text, micros);
    }
    if Integer(text).Some? {
      IntegerExactly(text, Integer(text).value);
    }
  }

  lemma StampExactly(schema: Schema, fields: Fields, stamp: Option<int>)
    ensures StampOf(schema, fields) == stamp <==> StampIs(schema, Kept(fields, 5), stamp)
  {
    var text := Kept(fields, 5);
    forall nanos ensures StampOf(schema, fields) == Some(nanos) <==> Tells(schema, text, nanos) {
      if schema.Apple? {
        Timestamp.ReadingIsInstant(text, nanos);
      } else {
        MicrosTell(text, nanos);
      }
    }
  }

  // ----- Fields -----------------------------------------------------------------------

  // What is kept of a value: its longest well-formed prefix within the buffer.
  ghost predicate IsClip(kept: seq<Byte>, bytes: seq<Byte>) {
    && kept <= bytes && |kept| <= 384 && WellFormed(kept)
    && forall n :: |kept| < n <= |bytes| && n <= 384 ==> !WellFormed(bytes[..n])
  }

  lemma ClipIsClip(bytes: seq<Byte>)
    ensures IsClip(Clip(bytes), bytes)
  {
    var within := if |bytes| <= VALUE_BYTES then bytes else bytes[..VALUE_BYTES];
    TrimmedIsLongest(within, 0);
    assert within[..|Clip(bytes)|] == bytes[..|Clip(bytes)|];
    forall n | |Clip(bytes)| < n <= |bytes| && n <= 384 ensures !WellFormed(bytes[..n]) {
      TrimmedIsLongest(within, n);
      assert within[..n] == bytes[..n];
    }
  }

  // The names and kept values at these places among the keys, in order.
  ghost predicate FieldsAt(
    pairs: seq<(seq<Byte>, seq<Byte>)>, places: seq<nat>, fields: Fields, keys: seq<seq<Byte>>, count: nat)
  {
    && |places| == |pairs|
    && (forall i, j :: 0 <= i < j < |places| ==> places[i] < places[j])
    && (forall k :: 0 <= k < count ==> (k in fields <==> k in places))
    && (forall i :: 0 <= i < |places| ==>
          && places[i] < count && places[i] < |keys| && places[i] in fields
          && pairs[i].0 == keys[places[i]] && IsClip(pairs[i].1, fields[places[i]]))
  }

  lemma {:induction false} PairsAt(keys: seq<seq<Byte>>, fields: Fields, count: nat) returns (places: seq<nat>)
    requires count <= |keys|
    ensures FieldsAt(PairsUpTo(keys, fields, count), places, fields, keys, count)
  {
    if count == 0 {
      places := [];
    } else {
      places := PairsAt(keys, fields, count - 1);
      if count - 1 in fields {
        FieldsAtMore(PairsUpTo(keys, fields, count - 1), places, fields, keys, count - 1);
        places := places + [count - 1];
      }
    }
  }

  lemma FieldsAtMore(
    pairs: seq<(seq<Byte>, seq<Byte>)>, places: seq<nat>, fields: Fields, keys: seq<seq<Byte>>, k: nat)
    requires FieldsAt(pairs, places, fields, keys, k) && k < |keys| && k in fields
    ensures FieldsAt(pairs + [(keys[k], Clip(fields[k]))], places + [k], fields, keys, k + 1)
  {
    ClipIsClip(fields[k]);
    var more := places + [k];
    assert forall n :: n in more <==> n in places || n == k;
  }

  ghost predicate Named(pairs: seq<(seq<Byte>, seq<Byte>)>, name: seq<Byte>) {
    exists pair :: pair in pairs && pair.0 == name
  }

  // The text of a field of this name, empty if there is none.
  ghost predicate Carries(pairs: seq<(seq<Byte>, seq<Byte>)>, name: seq<Byte>, text: seq<Byte>) {
    (name, text) in pairs || (text == [] && !Named(pairs, name))
  }

  lemma {:induction false} KeptIsCarried(schema: Schema, fields: Fields, k: nat, count: nat)
    requires k < 8 && count <= 8
    ensures var pairs := PairsUpTo(Keys(schema), fields, count);
            && (k < count && k in fields ==> (Keys(schema)[k], Kept(fields, k)) in pairs)
            && (k >= count || k !in fields ==> !Named(pairs, Keys(schema)[k]))
  {
    if count > 0 {
      KeptIsCarried(schema, fields, k, count - 1);
      if k < count - 1 {
        KeysAreDistinct(schema, k, count - 1);
      } else if k > count - 1 {
        KeysAreDistinct(schema, count - 1, k);
      }
      KeptMore(Keys(schema), fields, k, count - 1);
    }
  }

  lemma KeptMore(keys: seq<seq<Byte>>, fields: Fields, k: nat, last: nat)
    requires k < |keys| && last < |keys| && (k != last ==> keys[k] != keys[last])
    ensures var before, pairs := PairsUpTo(keys, fields, last), PairsUpTo(keys, fields, last + 1);
            && (forall pair :: pair in before ==> pair in pairs)
            && (k == last && k in fields ==> (keys[k], Kept(fields, k)) in pairs)
            && (k != last || k !in fields ==> (Named(pairs, keys[k]) <==> Named(before, keys[k])))
  {
    var before := PairsUpTo(keys, fields, last);
    var more := if last in fields then [(keys[last], Clip(fields[last]))] else [];
    assert PairsUpTo(keys, fields, last + 1) == before + more;
    assert forall pair :: pair in before + more <==> pair in before || pair in more;
  }

  // ----- Records ----------------------------------------------------------------------

  function LevelName(schema: Schema): (name: string) {
    if schema.Apple? then "messageType" else "PRIORITY"
  }

  function TimeName(schema: Schema): (name: string) {
    if schema.Apple? then "timestamp" else "__REALTIME_TIMESTAMP"
  }

  function PayloadName(schema: Schema): (name: string) {
    if schema.Apple? then "eventMessage" else "MESSAGE"
  }

  // What a record says of the envelope and of the values selected from it: the fields are
  // those selected, clipped, in the order of the keys, and the payload is among them;
  // severity and time are those that the fields of these names tell.
  ghost predicate RecordMeans(envelope: seq<Byte>, schema: Schema, fields: Fields, record: Record) {
    && record.raw == envelope
    && (exists places :: FieldsAt(record.fields, places, fields, Keys(schema), 8))
    && (exists payload :: (Ascii(PayloadName(schema)), payload) in record.fields)
    && (exists level :: Carries(record.fields, Ascii(LevelName(schema)), level) &&
                        SeverityIs(schema, level, record.severity))
    && (exists time :: Carries(record.fields, Ascii(TimeName(schema)), time) && StampIs(schema, time, record.stamp))
  }

  lemma PublicationMeans(envelope: seq<Byte>, schema: Schema, fields: Fields)
    requires PAYLOAD in fields
    ensures RecordMeans(envelope, schema, fields, Publication(envelope, schema, fields))
  {
    var record := Publication(envelope, schema, fields);
    var places := PairsAt(Keys(schema), fields, 8);
    KeptIsCarried(schema, fields, 7, 8);
    KeptIsCarried(schema, fields, 4, 8);
    KeptIsCarried(schema, fields, 5, 8);
    LevelExactly(schema, Kept(fields, 4), record.severity);
    StampExactly(schema, fields, record.stamp);
    assert Keys(schema)[7] == Ascii(PayloadName(schema));
    assert Carries(record.fields, Ascii(LevelName(schema)), Kept(fields, 4));
    assert Carries(record.fields, Ascii(TimeName(schema)), Kept(fields, 5));
  }

  // ----- Envelopes --------------------------------------------------------------------

  // A bounded well-formed text of one JSON object, which nests at most sixteen deep inside
  // and repeats no selected name; these are its selected values, and the payload is one.
  ghost predicate Acceptable(envelope: seq<Byte>, schema: Schema, fields: Fields) {
    && |envelope| <= 64 * 1024 && WellFormed(envelope) && 7 in fields
    && exists v :: EnvelopeTree(envelope, Keys(schema), v, fields) && Depth(v) <= 17
  }

  lemma AcceptableExactly(envelope: seq<Byte>, schema: Schema, fields: Fields)
    ensures Judge(envelope, schema) == Accepted(fields) <==> Acceptable(envelope, schema, fields)
  {
    AcceptedExactly(envelope, schema, fields);
  }

  // Too long an envelope, or one that is well formed and nests too deep.
  ghost predicate Excessive(envelope: seq<Byte>, schema: Schema) {
    |envelope| > 64 * 1024 || (WellFormed(envelope) && NestsTooDeep(envelope, Keys(schema)))
  }

  lemma ExcessiveExactly(envelope: seq<Byte>, schema: Schema)
    ensures Judge(envelope, schema) == OverLimit <==> Excessive(envelope, schema)
  {
    LimitExactly(envelope, Keys(schema));
  }

  // A decoder's answer is a record exactly of an acceptable envelope, and one that says what
  // it should; it is about limits exactly when the envelope is excessive.
  ghost predicate Answers(envelope: seq<Byte>, schema: Schema, result: Result) {
    && (result.Published? <==> exists fields :: Acceptable(envelope, schema, fields))
    && (result.Published? ==>
          exists fields :: Acceptable(envelope, schema, fields) && RecordMeans(envelope, schema, fields, result.record))
    && (result == Result.Limit <==> Excessive(envelope, schema))
  }

  lemma DecodingAnswers(envelope: seq<Byte>, schema: Schema)
    ensures Answers(envelope, schema, Decoding(envelope, schema))
  {
    var verdict := Judge(envelope, schema);
    ExcessiveExactly(envelope, schema);
    if verdict.Accepted? {
      AcceptableExactly(envelope, schema, verdict.fields);
      PublicationMeans(envelope, schema, verdict.fields);
    } else if fields :| Acceptable(envelope, schema, fields) {
      AcceptableExactly(envelope, schema, fields);
      assert false;
    }
  }

  // A value selected from an acceptable envelope is longer than its buffer.
  ghost predicate Overlong(envelope: seq<Byte>, schema: Schema) {
    exists fields: Fields :: Acceptable(envelope, schema, fields) && exists k :: k in fields && |fields[k]| > 384
  }

  lemma OverlongExactly(envelope: seq<Byte>, schema: Schema)
    ensures Judge(envelope, schema).Accepted? && Overflows(Judge(envelope, schema).fields) <==>
            Overlong(envelope, schema)
  {
    if Judge(envelope, schema).Accepted? {
      AcceptableExactly(envelope, schema, Judge(envelope, schema).fields);
    }
    if Overlong(envelope, schema) {
      var fields: Fields :| Acceptable(envelope, schema, fields) && exists k :: k in fields && |fields[k]| > 384;
      AcceptableExactly(envelope, schema, fields);
    }
  }
}
